/** The bits of L1-post: hard decisions of its cells, demultiplexed, deinterleaved and descrambled. */
module L1Bits {
  import opened Samples
  import opened BitFields
  import opened BitInterleaver
  import opened Permutations
  import opened Primes
  import opened L1Signalling
  import opened L1Post
  import GrayMapping
  import LlrDemapper
  import Mapper
  import BchDecoder
  import Crc32

  /** The interleaver of L1-post for modulation `mod` (1 for QPSK, 2 for 16-QAM, 3 for 64-QAM): columns without twist. */
  function PostTables(mod: nat, n: nat): Tables
    requires 1 <= mod <= 3
  {
    match mod
    case 1 => Tables(n, 1, [0], Mux(1))
    case 2 => Tables(n / 8, 8, [0, 0, 0, 0, 0, 0, 0, 0], Mux(2))
    case 3 => Tables(n / 12, 12, [0, 0, 0, 0, 0, 0, 0, 0, 0, 0, 0, 0], Mux(3))
  }

  /** The source's demultiplexer tables. */
  function Mux(mod: nat): seq<nat>
    requires 1 <= mod <= 3
  {
    match mod
    case 1 => [0]
    case 2 => [7, 1, 3, 5, 2, 4, 6, 0]
    case 3 => [11, 8, 5, 2, 10, 7, 4, 1, 9, 6, 3, 0]
  }

  function MuxTo(mod: nat): seq<nat>
    requires 1 <= mod <= 3
  {
    match mod
    case 1 => [0]
    case 2 => [7, 1, 4, 2, 5, 3, 6, 0]
    case 3 => [11, 7, 3, 10, 6, 2, 9, 5, 1, 8, 4, 0]
  }

  /** The cells hold whole rows. */
  predicate WholeRows(mod: nat, n: nat)
  {
    1 <= mod <= 3 && n > 0 && (mod == 2 ==> n % 8 == 0) && (mod == 3 ==> n % 12 == 0)
  }

  /** The hard decisions taken from `size` cells: one for each cell in BPSK (modulation 0), two for each axis bit otherwise. */
  function Decisions(mod: nat, size: nat): nat
  {
    if mod == 0 then size else size * (2 * mod)
  }

  /** The bits the program allocates for them. */
  function Allocated(mod: nat, size: nat): nat
  {
    size * mod * 2
  }

  /** There is room for the decisions exactly when the modulation is not BPSK, and then no more than needed. */
  lemma DecisionsFit(mod: nat, size: nat)
    ensures Decisions(mod, size) <= Allocated(mod, size) <==> mod != 0 || size == 0
    ensures mod != 0 ==> Decisions(mod, size) == Allocated(mod, size)
  {
    assert size * (2 * mod) == size * mod * 2;
  }

  lemma PostTablesOk(mod: nat, n: nat)
    requires WholeRows(mod, n)
    ensures var t, to := PostTables(mod, n), MuxTo(mod);
            t.Ok() && t.Size() == n && |to| == t.row && (forall r :: 0 <= r < t.row ==> t.tc[r] == 0)
            && forall i :: 0 <= i < t.row ==> to[t.demux[i]] == i
  {
    hide MatchedFrom, Mux, MuxTo, PostTables;
    MuxMatched(mod);
    PostShape(mod, n);
    var t, to := PostTables(mod, n), MuxTo(mod);
    PermutationByInverse(t.demux, to);
    forall i | 0 <= i < t.row ensures to[t.demux[i]] == i {
      MatchedAt(t.demux, to, 0, i);
    }
  }

  lemma PostShape(mod: nat, n: nat)
    requires WholeRows(mod, n)
    ensures var t := PostTables(mod, n);
            && t.column > 0 && t.row == (if mod == 1 then 1 else if mod == 2 then 8 else 12) && t.Size() == n && t.demux == Mux(mod)
            && |t.tc| == t.row && forall r :: 0 <= r < t.row ==> t.tc[r] == 0
  {
    hide Mux;
  }

  lemma MuxMatched(mod: nat)
    requires 1 <= mod <= 3
    ensures |Mux(mod)| == |MuxTo(mod)| == (if mod == 1 then 1 else if mod == 2 then 8 else 12) && MatchedFrom(Mux(mod), MuxTo(mod), 0)
  {
    hide MatchedFrom;
    LlrDemapper.Demux16();
    LlrDemapper.Demux64();
    OneMatched();
  }

  lemma OneMatched()
    ensures MatchedFrom([0], [0], 0)
  {
    assert MatchedFrom([0], [0], 1);
  }

  /** Decision `i` of the cells: real and imaginary axis in turn, level by level. */
  function HardBit(cells: seq<Complex>, i: nat, mod: nat, norm: real): Bit
    requires 1 <= mod <= 3 && LlrDemapper.CellOf(i, mod) < |cells|
  {
    var x, y := cells[LlrDemapper.CellOf(i, mod)], LlrDemapper.PartOf(i, mod);
    if GrayMapping.L1Bit(if y % 2 == 0 then x.re else x.im, y / 2, mod, norm) then 1 else 0
  }

  function Bools(w: seq<Bit>): (b: seq<bool>)
    ensures |b| == |w|
  {
    seq(|w|, i requires 0 <= i < |w| => w[i] == 1)
  }

  /** Every word that was mapped to cells is decided right when they are received as they were mapped. */
  lemma MappedIsDecided(w: seq<Bit>, cells: seq<Complex>, mod: nat, norm: real, i: nat)
    requires 1 <= mod <= 3 && norm > 0.0 && i < |w| && Mapper.Mapped(cells, 0, Bools(w), mod, norm)
    ensures LlrDemapper.CellOf(i, mod) < |cells| && HardBit(cells, i, mod, norm) == w[i]
  {
    hide Mapper.PartBits, LlrDemapper.CellOf, LlrDemapper.PartOf, GrayMapping.LevelOf, GrayMapping.At, GrayMapping.Label, GrayMapping.L1Bit;
    hide GrayMapping.Level, GrayMapping.Nearest, GrayMapping.OffBoundaries;
    assert Mapper.MappedAt(cells, 0, Bools(w), mod, norm, i);
    var c, y := LlrDemapper.CellOf(i, mod), LlrDemapper.PartOf(i, mod);
    var s := Mapper.PartBits(Bools(w), c, mod, y % 2);
    var l := GrayMapping.LevelOf(s);
    GrayMapping.EveryLabelHasLevel(s, norm);
    GrayMapping.LevelIsNearest(l, mod, norm);
    Mapper.MappedBit(Bools(w), i, mod);
    GrayMapping.BothDemappersAgree(GrayMapping.At(l, norm), l, y / 2, mod, norm);
  }

  /** What scrambling makes of bit `j`. */
  function Mixed(b: Bit, j: nat, scrambled: bool): Bit
  {
    if scrambled then (b as int + BchDecoder.Prbs(j)) % 2 else b
  }

  /** A demultiplexed bit stays in its word, at its demultiplexer's place, and goes on to its address. */
  lemma MuxInside(t: Tables, i: nat)
    requires t.Ok() && i < t.Size()
    ensures 0 < t.row == |t.demux| && i % t.row < t.row
    ensures MuxAt(t, i) / t.row == i / t.row && MuxAt(t, i) % t.row == t.demux[i % t.row]
    ensures AddressAt(t, i) == LlrDemapper.TwistAt(t, MuxAt(t, i))
  {
    hide Twist, AddressAt, LlrDemapper.TwistAt;
    WordAndValue(t, i);
    var k, n := i / t.row, i % t.row;
    LlrDemapper.AddressIsAt(t, k, n);
    assert k * t.row == t.row * k;
    QuotientIsUnique(t.row, k, t.demux[n]);
  }

  lemma MuxDiffers(t: Tables, i: nat, j: nat)
    requires t.Ok() && i < t.Size() && j < t.Size() && MuxAt(t, i) == MuxAt(t, j)
    ensures i == j
  {
    MuxInside(t, i);
    MuxInside(t, j);
    hide MuxAt, AddressAt, LlrDemapper.TwistAt;
    assert t.row > 0 && i % t.row < t.row && j % t.row < t.row;
    assert t.demux[i % t.row] == t.demux[j % t.row];
    BitInterleaver.SameParts(i, j, t.row);
  }

  /** Without a twist, cell (l, c) of the matrix is bit l of column c. */
  lemma UntwistedAt(t: Tables, l: nat, c: nat, i: nat)
    requires t.Ok() && l < t.column && c < t.row && i == l * t.row + c && t.tc[c] == 0
    ensures i < t.Size() && LlrDemapper.TwistAt(t, i) == l + c * t.column
  {
    LlrDemapper.TwistIsAt(t, l, c);
    hide *;
    ModOnce(l + t.column, t.column);
  }

  /** The word and the tributary a place of the matrix read by rows has, and where the column twist puts it. */
  lemma TwistAtParts(t: Tables, i: nat) returns (k: nat, r: nat)
    requires t.Ok() && i < t.Size()
    ensures k < t.column && r < t.row && i == k * t.row + r
    ensures r < |t.tc| && t.tc[r] <= t.column && LlrDemapper.TwistAt(t, i) == Twist(t, k, r)
    ensures LlrDemapper.TwistAt(t, i) / t.column == r
  {
    hide Twist, IsPermutation;
    WordAndValue(t, i);
    k, r := i / t.row, i % t.row;
    TwistInside(t, k, r);
  }

  lemma TwistDiffers(t: Tables, i: nat, j: nat)
    requires t.Ok() && i < t.Size() && j < t.Size() && LlrDemapper.TwistAt(t, i) == LlrDemapper.TwistAt(t, j)
    ensures i == j
  {
    hide *;
    var k, r := TwistAtParts(t, i);
    var k', r' := TwistAtParts(t, j);
    SameTwist(t, k, k', r);
  }

  lemma SameTwist(t: Tables, k: nat, k': nat, r: nat)
    requires t.Ok() && r < t.row && k < t.column && k' < t.column && Twist(t, k, r) == Twist(t, k', r)
    ensures k == k'
  {
    ModShift(k, k', t.tc[r], t.column);
  }

  lemma TwistAtInside(t: Tables, i: nat)
    requires t.Ok() && i < t.Size()
    ensures LlrDemapper.TwistAt(t, i) < t.Size()
  {
    hide Twist;
    WordAndValue(t, i);
    TwistInside(t, i / t.row, i % t.row);
  }

  /** The first `n` decisions are at their places in `s`. */
  ghost predicate Muxed(t: Tables, cells: seq<Complex>, s: seq<Bit>, n: nat, mod: nat, norm: real)
    requires t.Ok() && 1 <= mod <= 3
  {
    n <= t.Size() == |s| && forall i :: 0 <= i < n ==> MuxedAt(t, cells, s, i, mod, norm)
  }

  ghost predicate MuxedAt(t: Tables, cells: seq<Complex>, s: seq<Bit>, i: nat, mod: nat, norm: real)
    requires t.Ok() && 1 <= mod <= 3 && i < t.Size()
  {
    MuxAt(t, i) < |s| && LlrDemapper.CellOf(i, mod) < |cells| && s[MuxAt(t, i)] == HardBit(cells, i, mod, norm)
  }

  lemma MuxedNext(t: Tables, cells: seq<Complex>, s: seq<Bit>, i: nat, mod: nat, norm: real)
    requires t.Ok() && 1 <= mod <= 3 && Muxed(t, cells, s, i, mod, norm) && i < t.Size()
             && LlrDemapper.CellOf(i, mod) < |cells|
    ensures MuxAt(t, i) < |s| && Muxed(t, cells, s[MuxAt(t, i) := HardBit(cells, i, mod, norm)], i + 1, mod, norm)
  {
    hide MuxAt, HardBit, LlrDemapper.CellOf, Tables.Ok, Tables.Size;
    MuxInside(t, i);
    var next := s[MuxAt(t, i) := HardBit(cells, i, mod, norm)];
    forall k | 0 <= k < i + 1 ensures MuxedAt(t, cells, next, k, mod, norm) {
      if k < i {
        assert MuxedAt(t, cells, s, k, mod, norm);
        if MuxAt(t, k) == MuxAt(t, i) {
          MuxDiffers(t, k, i);
        }
      }
    }
  }

  lemma MuxStart(t: Tables, cells: seq<Complex>, s: seq<Bit>, n: nat, mod: nat, norm: real, mux: seq<nat>)
    requires WholeRows(mod, n) && t == PostTables(mod, n) && t.Ok() && t.Size() == n == |s|
    requires mux == Mux(mod)
    ensures 1 <= mod <= 3 && t.demux == mux && t.row == |mux| && Muxed(t, cells, s, 0, mod, norm)
    ensures Counted(0, 0, 2 * mod - 1, 0, 0, mod, |mux|)
  {
  }

  /** Decides and demultiplexes the bits of the cells. */
  method Demultiplex(cells: seq<Complex>, n: nat, mod: nat, norm: real, ghost t: Tables) returns (inter: array<Bit>)
    requires WholeRows(mod, n) && n == |cells| * (2 * mod) && t == PostTables(mod, n) && t.Ok() && t.Size() == n
    ensures fresh(inter) && inter.Length == n && Muxed(t, cells, inter[..], n, mod, norm)
  {
    hide *;
    ModInRange(mod, n);
    inter := new Bit[n](_ => 0);
    var nBit := 2 * mod - 1;
    var mux := Mux(mod);
    var substreams := |mux|;
    var cBit: nat, cell: nat, idxMux: nat, w: nat := nBit, 0, 0, 0;
    MuxStart(t, cells, inter[..], n, mod, norm, mux);
    for i := 0 to n
      invariant Counted(i, cell, cBit, idxMux, w, mod, substreams)
      invariant Muxed(t, cells, inter[..], i, mod, norm)
    {
      CountedNow(i, cell, cBit, idxMux, w, mod, substreams);
      NextDecision(cells, i, cell, nBit - cBit, mod, norm);
      NextPlace(t, i, w, idxMux);
      CountedNext(i, cell, cBit, idxMux, w, mod, substreams);
      var y := nBit - cBit;
      var amplitude := if y % 2 == 0 then cells[cell].re else cells[cell].im;
      var bit := if GrayMapping.L1Bit(amplitude, y / 2, mod, norm) then 1 else 0;
      ghost var s := inter[..];
      MuxedNext(t, cells, s, i, mod, norm);
      inter[mux[idxMux] + w] := bit;
      assert inter[..] == s[mux[idxMux] + w := bit];
      idxMux := idxMux + 1;
      if idxMux == substreams {
        idxMux := 0;
        w := w + substreams;
      }
      if cBit == 0 {
        cBit := nBit + 1;
        cell := cell + 1;
      }
      cBit := cBit - 1;
    }
  }

  /** Decision `i` is the next of cell `cell`, and entry `idxMux` of the row of the demultiplexer that starts at `w`. */
  ghost predicate Counted(i: nat, cell: nat, cBit: nat, idxMux: nat, w: nat, mod: nat, row: nat)
  {
    cBit < 2 * mod && i == cell * (2 * mod) + (2 * mod - 1 - cBit) && idxMux < row && i == w + idxMux && w % row == 0
  }

  lemma CountedNow(i: nat, cell: nat, cBit: nat, idxMux: nat, w: nat, mod: nat, row: nat)
    requires Counted(i, cell, cBit, idxMux, w, mod, row)
    ensures cBit < 2 * mod && i == cell * (2 * mod) + (2 * mod - 1 - cBit) && idxMux < row && i == w + idxMux
            && w % row == 0
  {
  }

  lemma CountedNext(i: nat, cell: nat, cBit: nat, idxMux: nat, w: nat, mod: nat, row: nat)
    requires Counted(i, cell, cBit, idxMux, w, mod, row)
    ensures Counted(i + 1, if cBit == 0 then cell + 1 else cell, if cBit == 0 then 2 * mod - 1 else cBit - 1,
                    if idxMux + 1 == row then 0 else idxMux + 1, if idxMux + 1 == row then w + row else w, mod, row)
  {
    assert (cell + 1) * (2 * mod) == cell * (2 * mod) + 2 * mod;
    assert (w + row) % row == 0 by {
      assert w == row * (w / row);
      QuotientIsUnique(row, w / row + 1, 0);
      assert row * (w / row + 1) == w + row;
    }
  }

  lemma NextDecision(cells: seq<Complex>, i: nat, cell: nat, y: nat, mod: nat, norm: real)
    requires 1 <= mod <= 3 && i < |cells| * (2 * mod) && i == cell * (2 * mod) + y && y < 2 * mod
    ensures cell < |cells| && LlrDemapper.CellOf(i, mod) == cell && LlrDemapper.PartOf(i, mod) == y
    ensures HardBit(cells, i, mod, norm)
            == if GrayMapping.L1Bit(if y % 2 == 0 then cells[cell].re else cells[cell].im, y / 2, mod, norm) then 1 else 0
  {
    hide LlrDemapper.CellOf, LlrDemapper.PartOf, GrayMapping.L1Bit;
    LlrDemapper.CellOfValue(mod, cell, y);
    LlrDemapper.MulInside(cell, 2 * mod, |cells|, i);
  }

  lemma NextPlace(t: Tables, i: nat, w: nat, n: nat)
    requires t.Ok() && i < t.Size() && i == w + n && n < t.row && w % t.row == 0
    ensures MuxAt(t, i) == t.demux[n] + w && MuxAt(t, i) < t.Size()
  {
    hide Tables.Ok, Tables.Size, MuxAt;
    var q := w / t.row;
    assert w == q * t.row;
    MuxOf(t, q, n, i);
  }

  /** The first `n` demultiplexed bits, descrambled, are at their places in `s`. */
  ghost predicate Placed(t: Tables, inter: seq<Bit>, s: seq<Bit>, n: nat, scrambled: bool)
    requires t.Ok()
  {
    n <= t.Size() == |s| == |inter| && forall i :: 0 <= i < n ==> PlacedAt(t, inter, s, i, scrambled)
  }

  ghost predicate PlacedAt(t: Tables, inter: seq<Bit>, s: seq<Bit>, i: nat, scrambled: bool)
    requires t.Ok() && i < t.Size() == |inter|
  {
    var j := LlrDemapper.TwistAt(t, i);
    j < |s| && s[j] == Mixed(inter[i], j, scrambled)
  }

  lemma PlacedNext(t: Tables, inter: seq<Bit>, s: seq<Bit>, i: nat, scrambled: bool)
    requires t.Ok() && Placed(t, inter, s, i, scrambled) && i < t.Size()
    ensures var j := LlrDemapper.TwistAt(t, i); j < |s| && Placed(t, inter, s[j := Mixed(inter[i], j, scrambled)], i + 1, scrambled)
  {
    hide LlrDemapper.TwistAt, Mixed, Tables.Ok, Tables.Size;
    TwistAtInside(t, i);
    var j := LlrDemapper.TwistAt(t, i);
    var next := s[j := Mixed(inter[i], j, scrambled)];
    forall k | 0 <= k < i + 1 ensures PlacedAt(t, inter, next, k, scrambled) {
      if k < i {
        assert PlacedAt(t, inter, s, k, scrambled);
        if LlrDemapper.TwistAt(t, k) == j {
          TwistDiffers(t, k, i);
        }
      }
    }
  }

  lemma ModInRange(mod: nat, n: nat)
    requires WholeRows(mod, n)
    ensures 1 <= mod <= 3
  {
  }

  lemma MatrixStart(t: Tables, inter: seq<Bit>, s: seq<Bit>, n: nat, mod: nat, randomize: bool, rows: nat, columns: nat)
    requires WholeRows(mod, n) && t == PostTables(mod, n) && t.Ok() && t.Size() == n == |s| == |inter|
    requires columns == (if mod == 1 then 0 else if mod == 2 then 8 else 12) && rows == if mod == 1 then 0 else n / columns
    ensures rows == t.column || (rows == 0 && t.row == 1)
    ensures if rows == 0 then columns == 0 && t.row == 1 else columns == t.row
    ensures forall r :: 0 <= r < t.row ==> t.tc[r] == 0
    ensures Placed(t, inter, s, 0, randomize) && Stepped(0, 0, 0, 0, rows, t.row)
  {
  }

  /** Reads the demultiplexed bits into columns, descrambling them on the way. */
  method Deinterleave(inter: array<Bit>, n: nat, mod: nat, randomize: bool, random: seq<Bit>, ghost t: Tables)
    returns (bits: array<Bit>)
    requires WholeRows(mod, n) && inter.Length == n && t == PostTables(mod, n) && t.Ok() && t.Size() == n
    requires randomize ==> n <= |random| && forall j :: 0 <= j < |random| ==> random[j] == BchDecoder.Prbs(j)
    ensures fresh(bits) && bits.Length == n && Placed(t, inter[..], bits[..], n, randomize)
  {
    hide *;
    ModInRange(mod, n);
    bits := new Bit[n](_ => 0);
    var columns := if mod == 1 then 0 else if mod == 2 then 8 else 12;
    var rows := if mod == 1 then 0 else n / columns;
    var sizeBlock := rows * columns;
    var l: nat, step: nat := 0, 0;
    ghost var c: nat, from := 0, inter[..];
    MatrixStart(t, from, bits[..], n, mod, randomize, rows, columns);
    for i := 0 to n
      invariant Stepped(i, l, c, step, rows, t.row)
      invariant Placed(t, from, bits[..], i, randomize)
      modifies bits
    {
      SteppedNow(i, l, c, step, rows, t.row);
      MatrixPlace(t, i, l, c, rows);
      SteppedNext(i, l, c, step, rows, columns, t.row);
      PlacedNext(t, from, bits[..], i, randomize);
      var j := l + step;
      MixedIs(from[i], j, randomize);
      ghost var s := bits[..];
      bits[j] := if randomize then (inter[i] as int + random[j]) % 2 else inter[i];
      assert bits[..] == s[j := Mixed(from[i], j, randomize)];
      step := step + rows;
      c := c + 1;
      if step == sizeBlock {
        step := 0;
        c := 0;
        l := l + 1;
      }
    }
  }

  lemma MixedIs(b: Bit, j: nat, scrambled: bool)
    ensures Mixed(b, j, scrambled) == if scrambled then (b as int + BchDecoder.Prbs(j)) % 2 else b
  {
  }

  lemma MatrixPlace(t: Tables, i: nat, l: nat, c: nat, rows: nat)
    requires rows == t.column || (rows == 0 && t.row == 1)
    requires t.Ok() && i < t.Size() && i == l * t.row + c && c < t.row && forall r :: 0 <= r < t.row ==> t.tc[r] == 0
    ensures LlrDemapper.TwistAt(t, i) == l + c * rows < t.Size()
  {
    hide LlrDemapper.TwistAt;
    LlrDemapper.MulInside(l, t.row, t.column, i);
    UntwistedAt(t, l, c, i);
    TwistAtInside(t, i);
    if t.row == 1 {
      assert c == 0;
    }
  }

  /** Bit `i` of the demultiplexer's buffer is in row `l` and column `c` of the matrix. */
  ghost predicate Stepped(i: nat, l: nat, c: nat, step: nat, rows: nat, row: nat)
  {
    c < row && i == l * row + c && step == c * rows
  }

  lemma SteppedNow(i: nat, l: nat, c: nat, step: nat, rows: nat, row: nat)
    requires Stepped(i, l, c, step, rows, row)
    ensures c < row && i == l * row + c && step == c * rows
  {
  }

  lemma SteppedNext(i: nat, l: nat, c: nat, step: nat, rows: nat, columns: nat, row: nat)
    requires Stepped(i, l, c, step, rows, row) && (if rows == 0 then columns == 0 && row == 1 else columns == row)
    ensures if step + rows == rows * columns then Stepped(i + 1, l + 1, 0, 0, rows, row)
            else Stepped(i + 1, l, c + 1, step + rows, rows, row)
  {
    NextColumn(c, rows, columns, row);
    assert (l + 1) * row == l * row + row;
  }

  /** The block is stepped through exactly when its last column has been. */
  lemma NextColumn(c: nat, rows: nat, columns: nat, row: nat)
    requires c < row && (if rows == 0 then columns == 0 && row == 1 else columns == row)
    ensures c * rows + rows == (c + 1) * rows
    ensures c * rows + rows == rows * columns <==> c + 1 == row
  {
    if rows > 0 && c + 1 < row {
      MulAtLeast(rows, columns - (c + 1));
      assert rows * columns == (c + 1) * rows + rows * (columns - (c + 1));
    }
  }

  /** Every decision, descrambled, is at its address in `bits`. */
  ghost predicate Gathered(t: Tables, cells: seq<Complex>, bits: seq<Bit>, mod: nat, norm: real, scrambled: bool)
    requires t.Ok() && 1 <= mod <= 3
  {
    |bits| == t.Size() && forall i: nat :: i < t.Size() ==> GatheredAt(t, cells, bits, i, mod, norm, scrambled)
  }

  ghost predicate GatheredAt(t: Tables, cells: seq<Complex>, bits: seq<Bit>, i: nat, mod: nat, norm: real, scrambled: bool)
    requires t.Ok() && 1 <= mod <= 3 && i < t.Size()
  {
    var j := AddressAt(t, i);
    && j < |bits| && LlrDemapper.CellOf(i, mod) < |cells|
    && bits[j] == Mixed(HardBit(cells, i, mod, norm), j, scrambled)
  }

  lemma MuxedAndPlaced(t: Tables, cells: seq<Complex>, inter: seq<Bit>, bits: seq<Bit>, mod: nat, norm: real, scrambled: bool)
    requires t.Ok() && 1 <= mod <= 3 && Muxed(t, cells, inter, t.Size(), mod, norm)
             && Placed(t, inter, bits, t.Size(), scrambled)
    ensures Gathered(t, cells, bits, mod, norm, scrambled)
  {
    hide MuxAt, AddressAt, LlrDemapper.TwistAt, HardBit, Mixed, LlrDemapper.CellOf, Tables.Ok, Tables.Size;
    forall i: nat | i < t.Size() ensures GatheredAt(t, cells, bits, i, mod, norm, scrambled) {
      MuxInside(t, i);
      assert MuxedAt(t, cells, inter, i, mod, norm);
      assert PlacedAt(t, inter, bits, MuxAt(t, i), scrambled);
    }
  }

  /** The bits of L1-post from its cells. */
  method PostBits(cells: seq<Complex>, mod: nat, norm: real, randomize: bool, random: seq<Bit>) returns (bits: seq<Bit>)
    requires WholeRows(mod, |cells| * (2 * mod))
    requires randomize ==> |cells| * (2 * mod) <= |random| && forall j :: 0 <= j < |random| ==> random[j] == BchDecoder.Prbs(j)
    ensures 1 <= mod <= 3 && PostTables(mod, |cells| * (2 * mod)).Ok()
    ensures Gathered(PostTables(mod, |cells| * (2 * mod)), cells, bits, mod, norm, randomize)
  {
    var n := |cells| * (2 * mod);
    PostTablesOk(mod, n);
    hide WholeRows, PostTables, Muxed, Placed, Gathered, Tables.Ok, Tables.Size, BchDecoder.Prbs;
    ghost var t := PostTables(mod, n);
    var inter := Demultiplex(cells, n, mod, norm, t);
    var b := Deinterleave(inter, n, mod, randomize, random, t);
    bits := b[..];
    MuxedAndPlaced(t, cells, inter[..], bits, mod, norm, randomize);
  }

  // ---- The transmitter ----

  /** `x` is `u`, scrambled if L1-post is. */
  ghost predicate MixedAll(u: seq<Bit>, x: seq<Bit>, scrambled: bool)
  {
    |x| == |u| && forall j :: 0 <= j < |u| ==> x[j] == Mixed(u[j], j, scrambled)
  }

  lemma MixedTwice(b: Bit, j: nat, scrambled: bool)
    ensures Mixed(Mixed(b, j, scrambled), j, scrambled) == b
  {
  }

  /** Gathering undoes scrambling, interleaving and demultiplexing of an L1-post codeword whose bits are decided right. */
  lemma PostBitsRestored(mod: nat, norm: real, scrambled: bool, cells: seq<Complex>, bits: seq<Bit>,
                         u: seq<Bit>, x: seq<Bit>, v: seq<Bit>, w: seq<Bit>)
    requires WholeRows(mod, |u|) && PostTables(mod, |u|).Ok() && |MuxTo(mod)| == PostTables(mod, |u|).row
    requires var t := PostTables(mod, |u|);
             && MixedAll(u, x, scrambled) && ColumnTwisted(t, x, v) && Demultiplexed(t.row, MuxTo(mod), v, w)
             && Gathered(t, cells, bits, mod, norm, scrambled)
    requires forall i: nat :: i < |w| ==> LlrDemapper.CellOf(i, mod) < |cells| && HardBit(cells, i, mod, norm) == w[i]
    ensures bits == u
  {
    hide *;
    ModInRange(mod, |u|);
    PostTablesOk(mod, |u|);
    var t := PostTables(mod, |u|);
    TransmittedSizes(t, MuxTo(mod), x, v, w);
    GatheredSize(t, cells, bits, mod, norm, scrambled);
    var address, s := Addresses(t), Unmixed(bits, scrambled);
    AddressesPermute(t, address);
    DecisionsPlaced(t, cells, bits, mod, norm, scrambled, address, w);
    ScatterRestores(t, MuxTo(mod), x, v, w, address, s);
    MixedBack(u, x, bits, scrambled);
  }

  function Unmixed(bits: seq<Bit>, scrambled: bool): (s: seq<Bit>)
    ensures |s| == |bits|
  {
    seq(|bits|, j requires 0 <= j < |bits| => Mixed(bits[j], j, scrambled))
  }

  lemma DecisionsPlaced(t: Tables, cells: seq<Complex>, bits: seq<Bit>, mod: nat, norm: real, scrambled: bool, address: seq<nat>, w: seq<Bit>)
    requires t.Ok() && 1 <= mod <= 3 && Gathered(t, cells, bits, mod, norm, scrambled) && |w| == t.Size()
             && address == Addresses(t)
    requires forall i: nat :: i < |w| ==> LlrDemapper.CellOf(i, mod) < |cells| && HardBit(cells, i, mod, norm) == w[i]
    ensures forall i :: 0 <= i < |address| ==> address[i] < |bits| && Unmixed(bits, scrambled)[address[i]] == w[i]
  {
    hide Tables.Ok, Tables.Size, AddressAt, Mixed, HardBit, LlrDemapper.CellOf, Addresses;
    forall i: nat | i < |address| ensures address[i] < |bits| && Unmixed(bits, scrambled)[address[i]] == w[i] {
      assert GatheredAt(t, cells, bits, i, mod, norm, scrambled);
      MixedTwice(w[i], address[i], scrambled);
    }
  }

  lemma MixedBack(u: seq<Bit>, x: seq<Bit>, bits: seq<Bit>, scrambled: bool)
    requires MixedAll(u, x, scrambled) && Unmixed(bits, scrambled) == x
    ensures bits == u
  {
    hide Mixed;
    forall j | 0 <= j < |u| ensures bits[j] == u[j] {
      assert Unmixed(bits, scrambled)[j] == x[j];
      MixedTwice(u[j], j, scrambled);
      MixedTwice(bits[j], j, scrambled);
    }
  }

  lemma GatheredSize(t: Tables, cells: seq<Complex>, bits: seq<Bit>, mod: nat, norm: real, scrambled: bool)
    requires t.Ok() && 1 <= mod <= 3 && Gathered(t, cells, bits, mod, norm, scrambled)
    ensures |bits| == t.Size()
  {
  }

  function Addresses(t: Tables): (address: seq<nat>)
    requires t.Ok()
    ensures |address| == t.Size() && forall i :: 0 <= i < |address| ==> address[i] == AddressAt(t, i)
  {
    seq(t.Size(), i requires 0 <= i < t.Size() => AddressAt(t, i))
  }

  lemma TransmittedSizes(t: Tables, to: seq<nat>, x: seq<Bit>, v: seq<Bit>, w: seq<Bit>)
    requires t.Ok() && |to| == t.row && ColumnTwisted(t, x, v) && Demultiplexed(t.row, to, v, w)
    ensures |x| == |v| == |w| == t.Size()
  {
  }

  /**
   L1-post round trip: a record written with its check at the start of a codeword, scrambled or not, interleaved, demultiplexed and
   decided right, is found and read, and its parsing ends, exactly as `Received` says.
   */
  lemma PostSignallingRestored(p: Post, more: seq<Bit>, repeats: bool, mod: nat, norm: real, scrambled: bool,
                               cells: seq<Complex>, bits: seq<Bit>, u: seq<Bit>, x: seq<Bit>, v: seq<Bit>, w: seq<Bit>)
    requires Ok(p)
    requires LaidAt(u, 0, WritePost(p, more) + Write(Crc32.Check(WritePost(p, more)), CRC_BITS))
    requires WholeRows(mod, |u|) && PostTables(mod, |u|).Ok() && |MuxTo(mod)| == PostTables(mod, |u|).row
    requires var t := PostTables(mod, |u|);
             && MixedAll(u, x, scrambled) && ColumnTwisted(t, x, v) && Demultiplexed(t.row, MuxTo(mod), v, w)
             && Gathered(t, cells, bits, mod, norm, scrambled)
    requires forall i: nat :: i < |w| ==> LlrDemapper.CellOf(i, mod) < |cells| && HardBit(cells, i, mod, norm) == w[i]
    ensures Received(p, |WritePost(p, more)|, bits, repeats)
  {
    hide *;
    PostBitsRestored(mod, norm, scrambled, cells, bits, u, x, v, w);
    PostRoundTrip(p, more, bits, repeats);
  }
}
