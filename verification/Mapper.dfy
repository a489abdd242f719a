/** The transmitter's mapper: the bits of a word onto the levels of the two axes of its cells (section 6.2.2 of EN 302 755). */
module Mapper {
  import opened Samples
  import opened Primes
  import opened GrayMapping
  import opened LlrDemapper

  /** The bits of axis `part` of cell `c` when `w` is mapped, `2 * axis` bits to a cell, alternating between the axes. */
  function PartBits(w: seq<bool>, c: nat, axis: nat, part: nat): (s: seq<bool>)
    ensures |s| == axis
  {
    seq(axis, k requires 0 <= k < axis => BitOr(w, c * (2 * axis) + 2 * k + part))
  }

  function BitOr(w: seq<bool>, i: nat): bool
  {
    i < |w| && w[i]
  }

  function MappedCell(w: seq<bool>, c: nat, axis: nat, n: real): Complex
    requires axis > 0
  {
    Complex(At(LevelOf(PartBits(w, c, axis, 0)), n), At(LevelOf(PartBits(w, c, axis, 1)), n))
  }

  /** The cells from `from` on are those the word is mapped to. */
  ghost predicate Mapped(cells: seq<Complex>, from: nat, w: seq<bool>, axis: nat, n: real)
    requires axis > 0
  {
    forall j: nat :: j < |w| ==> MappedAt(cells, from, w, axis, n, j)
  }

  ghost predicate MappedAt(cells: seq<Complex>, from: nat, w: seq<bool>, axis: nat, n: real, j: nat)
    requires axis > 0 && j < |w|
  {
    from + CellOf(j, axis) < |cells| && cells[from + CellOf(j, axis)] == MappedCell(w, CellOf(j, axis), axis, n)
  }

  lemma MapWord(w: seq<bool>, axis: nat, n: real, from: nat) returns (cells: seq<Complex>)
    requires axis > 0
    ensures Mapped(cells, from, w, axis, n)
  {
    hide MappedCell, CellOf;
    cells := seq(from + |w|, i requires 0 <= i < from + |w| => if i < from then ZERO else MappedCell(w, i - from, axis, n));
    forall j: nat | j < |w| ensures MappedAt(cells, from, w, axis, n, j) {
      CellBelow(j, axis);
    }
  }

  lemma CellBelow(j: nat, axis: nat)
    requires axis > 0
    ensures CellOf(j, axis) <= j && j == CellOf(j, axis) * (2 * axis) + PartOf(j, axis)
  {
    hide *;
    PartsOf(j, axis);
    Below(CellOf(j, axis), 2 * axis, j);
  }

  lemma PartsOf(j: nat, axis: nat)
    requires axis > 0
    ensures j == CellOf(j, axis) * (2 * axis) + PartOf(j, axis)
  {
    EmptyQuotient(j, 2 * axis);
  }

  lemma Below(q: nat, m: nat, j: nat)
    requires m > 0 && q * m <= j
    ensures q <= j
  {
    MulAtLeast(q, m);
  }

  lemma MappedBit(w: seq<bool>, j: nat, axis: nat)
    requires axis > 0 && j < |w|
    ensures PartBits(w, CellOf(j, axis), axis, PartOf(j, axis) % 2)[PartOf(j, axis) / 2] == w[j]
  {
    hide CellOf, PartOf;
    CellBelow(j, axis);
  }
}
