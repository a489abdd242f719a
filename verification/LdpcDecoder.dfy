/**
 The LDPC stage around its core: a batch of 32 FEC blocks is transposed into lanes, their parity
 deinterleaved on the way; the core works on the lanes; hard decisions are regrouped by block.
 */
module LdpcDecoder {
  import opened Primes
  import opened BitInterleaver
  import opened Batches
  import opened LlrDemapper
  import BitFields

  type Bit = BitFields.Bit

  /** Information bits and parity step of one code: K_ldpc and Q_ldpc. */
  datatype Code = Code(k: nat, q: nat) {
    function Length(): nat { k + GROUP * q }
  }

  function CodeOf(size: FecSize, rate: CodeRate): Code
  {
    match (size, rate)
    case (Normal, C1_2) => Code(32400, 90)
    case (Normal, C3_5) => Code(38880, 72)
    case (Normal, C2_3) => Code(43200, 60)
    case (Normal, C3_4) => Code(48600, 45)
    case (Normal, C4_5) => Code(51840, 36)
    case (Normal, C5_6) => Code(54000, 30)
    case (Short, C1_2) => Code(7200, 25)
    case (Short, C3_5) => Code(9720, 18)
    case (Short, C2_3) => Code(10800, 15)
    case (Short, C3_4) => Code(11880, 12)
    case (Short, C4_5) => Code(12600, 10)
    case (Short, C5_6) => Code(13320, 8)
  }

  /** Information and parity of every code fill the FEC block exactly. */
  lemma CodesFillBlocks(size: FecSize, rate: CodeRate)
    ensures CodeOf(size, rate).Length() == if size == Normal then FEC_SIZE_NORMAL else FEC_SIZE_SHORT
  {
  }

  /** Where entry `i` of a lane comes from in its block. */
  function Source(c: Code, i: nat): (j: nat)
    requires i < c.Length()
  {
    if i < c.k then i else c.k + GROUP * ((i - c.k) % c.q) + (i - c.k) / c.q
  }

  lemma SourceInside(c: Code, i: nat)
    requires i < c.Length()
    ensures Source(c, i) < c.Length()
  {
    if i >= c.k {
      GroupOf(i - c.k, c.q);
      RoomFor((i - c.k) % c.q, c.q, GROUP);
    }
  }

  /** A block with its parity deinterleaved. */
  function Deparity(c: Code, block: seq<int>): (lane: seq<int>)
    requires |block| == c.Length()
    ensures |lane| == |block|
  {
    seq(|block|, i requires 0 <= i < |block| => SourceInside(c, i); block[Source(c, i)])
  }

  /** It is the decoder's layout K + Q s + t <- K + 360 t + s. */
  lemma DeparityLayout(c: Code, block: seq<int>)
    requires |block| == c.Length()
    ensures Deparity(c, block)[..c.k] == block[..c.k]
    ensures forall t: nat, s: nat :: t < c.q && s < GROUP ==> ParityBit(Deparity(c, block), block, c.k, c.q, t, s)
  {
    forall t: nat, s: nat | t < c.q && s < GROUP ensures ParityBit(Deparity(c, block), block, c.k, c.q, t, s) {
      LaneIndex(c, t, s);
    }
  }

  lemma LaneIndex(c: Code, t: nat, s: nat)
    requires t < c.q && s < GROUP
    ensures var i := c.k + c.q * s + t; i < c.Length() && Source(c, i) == c.k + GROUP * t + s
  {
    QuotientIsUnique(c.q, s, t);
    RoomFor(s, GROUP, c.q);
  }

  function Hard(lane: seq<int>, k: nat): (bits: seq<Bit>)
    requires k <= |lane|
    ensures |bits| == k
  {
    seq(k, i requires 0 <= i < k => if lane[i] < 0 then 1 else 0)
  }

  /** The lanes the core is given for a batch. */
  function LanesOf(c: Code, batch: seq<int>): (lanes: seq<seq<int>>)
    requires |batch| == LANES * c.Length()
    ensures Shaped(lanes, c.Length())
  {
    seq(LANES, k requires 0 <= k < LANES => Deparity(c, BlockOf(batch, c.Length(), k)))
  }

  datatype Outcome = Failed | Decoded(lanes: seq<seq<int>>)

  ghost predicate Shaped(lanes: seq<seq<int>>, size: nat)
  {
    |lanes| == LANES && forall k :: 0 <= k < LANES ==> |lanes[k]| == size
  }

  /** The hard decisions of the first `n` lanes, block by block. */
  function HardBlocks(lanes: seq<seq<int>>, k: nat, n: nat): (blocks: seq<seq<Bit>>)
    requires n <= |lanes| && forall j :: 0 <= j < n ==> k <= |lanes[j]|
    ensures |blocks| == n
  {
    seq(n, j requires 0 <= j < n => Hard(lanes[j], k))
  }

  class Decoder {
    const simd: array2<int>   // one row for each value, one column for each lane
    const bufferA: array<Bit>
    const bufferB: array<Bit>

    var swapBuffer: bool
    var bchFec: array<Bit>
    var sent: seq<seq<Bit>>   // the batches of bits emitted so far

    ghost predicate Valid()
      reads this
    {
      && simd.Length1 == LANES && bufferA != bufferB
      && bchFec == (if swapBuffer then bufferA else bufferB)
    }

    ghost predicate Fits(c: Code)
    {
      c.Length() <= simd.Length0 && LANES * c.k <= bufferA.Length && LANES * c.k <= bufferB.Length
    }

    constructor ()
      ensures Valid() && sent == [] && fresh(simd) && fresh(bufferA) && fresh(bufferB)
      ensures forall size, rate :: Fits(CodeOf(size, rate))
    {
      simd := new int[FEC_SIZE_NORMAL, LANES];
      var a := new Bit[54000 * LANES](_ => 0);
      var b := new Bit[54000 * LANES](_ => 0);
      bufferA, bufferB, bchFec := a, b, a;
      swapBuffer, sent := true, [];
    }

    /** What lane `k` holds. */
    function Lane(k: nat, size: nat): (lane: seq<int>)
      requires k < simd.Length1 && size <= simd.Length0
      reads simd
      ensures |lane| == size
    {
      seq(size, i requires 0 <= i < size reads simd => simd[i, k])
    }

    /** One value into lane `k`. */
    method Put(i: nat, k: nat, v: int, ghost size: nat)
      requires i < size <= simd.Length0 && k < simd.Length1
      modifies simd
      ensures Lane(k, size) == old(Lane(k, size))[i := v]
      ensures forall j: nat :: j < simd.Length1 && j != k ==> Lane(j, size) == old(Lane(j, size))
    {
      simd[i, k] := v;
      assert Lane(k, size) == old(Lane(k, size))[i := v];
    }

    /** Transposes block `k` of the batch into lane `k`, deinterleaving its parity. */
    method FillLane(c: Code, batch: seq<int>, k: nat)
      requires Valid() && Fits(c) && |batch| == LANES * c.Length() && k < LANES
      modifies simd
      ensures Lane(k, c.Length()) == Deparity(c, BlockOf(batch, c.Length(), k))
      ensures forall j: nat :: j < LANES && j != k ==> Lane(j, c.Length()) == old(Lane(j, c.Length()))
    {
      ghost var block := BlockOf(batch, c.Length(), k);
      RoomForBlock(k, c.Length(), |batch|);
      var j := k * c.Length();
      FillInformation(c, batch, j, k, block);
      LaneStarts(c, block, Lane(k, c.Length()));
      FillParity(c, batch, j, k, block);
      LaneEnds(c, block, Lane(k, c.Length()));
    }

    method FillInformation(c: Code, batch: seq<int>, j: nat, k: nat, ghost block: seq<int>)
      requires Valid() && Fits(c) && k < LANES && j + c.Length() <= |batch| && block == batch[j..j + c.Length()]
      modifies simd
      ensures Lane(k, c.Length())[..c.k] == block[..c.k]
      ensures forall y: nat :: y < LANES && y != k ==> Lane(y, c.Length()) == old(Lane(y, c.Length()))
    {
      hide Lane;
      ghost var size := c.Length();
      for i := 0 to c.k
        invariant i <= size && Lane(k, size)[..i] == block[..i]
        invariant forall y: nat :: y < LANES && y != k ==> Lane(y, size) == old(Lane(y, size))
      {
        Put(i, k, batch[j + i], size);
        assert block[..i + 1] == block[..i] + [block[i]];
      }
    }

    method FillParity(c: Code, batch: seq<int>, j: nat, k: nat, ghost block: seq<int>)
      requires Valid() && Fits(c) && k < LANES && j + c.Length() <= |batch| && block == batch[j..j + c.Length()]
      requires LaneSoFar(c, block, Lane(k, c.Length()), 0, 0)
      modifies simd
      ensures LaneSoFar(c, block, Lane(k, c.Length()), c.q, 0)
      ensures forall y: nat :: y < LANES && y != k ==> Lane(y, c.Length()) == old(Lane(y, c.Length()))
    {
      hide LaneSoFar, Lane, Code.Length;
      ghost var size := c.Length();
      for t := 0 to c.q
        invariant LaneSoFar(c, block, Lane(k, size), t, 0)
        invariant forall y: nat :: y < LANES && y != k ==> Lane(y, size) == old(Lane(y, size))
      {
        for s := 0 to GROUP
          invariant LaneSoFar(c, block, Lane(k, size), t, s)
          invariant forall y: nat :: y < LANES && y != k ==> Lane(y, size) == old(Lane(y, size))
        {
          LaneStep(c, block, Lane(k, size), t, s);
          Put(c.k + c.q * s + t, k, batch[j + c.k + GROUP * t + s], size);
        }
        LaneWraps(c, block, Lane(k, size), t);
      }
    }

    /** The core's result, in place of what it was given. */
    method StoreLanes(c: Code, lanes: seq<seq<int>>)
      requires Valid() && Fits(c) && Shaped(lanes, c.Length())
      modifies simd
      ensures forall k: nat :: k < LANES ==> Lane(k, c.Length()) == lanes[k]
    {
      hide Lane;
      ghost var size := c.Length();
      for k := 0 to LANES
        invariant forall y: nat :: y < k ==> Lane(y, size) == lanes[y]
      {
        for i := 0 to c.Length()
          invariant Lane(k, size)[..i] == lanes[k][..i]
          invariant forall y: nat :: y < k ==> Lane(y, size) == lanes[y]
        {
          Put(i, k, lanes[k][i], size);
          assert lanes[k][..i + 1] == lanes[k][..i] + [lanes[k][i]];
        }
        assert Lane(k, size)[..size] == Lane(k, size) && lanes[k][..size] == lanes[k];
      }
    }

    /** Hard decisions of the information part of lane `j`. */
    method HardLane(c: Code, j: nat, start: nat)
      requires Valid() && Fits(c) && j < LANES && start + c.k <= bchFec.Length
      modifies bchFec
      ensures bchFec[..start + c.k] == old(bchFec[..start]) + Hard(Lane(j, c.Length()), c.k)
    {
      var at := start;
      ghost var lane := Lane(j, c.Length());
      hide Hard;
      HardNone(lane);
      for i := 0 to c.k
        invariant at == start + i && bchFec[..at] == old(bchFec[..start]) + Hard(lane, i)
      {
        HardGrows(lane, i);
        ghost var done := bchFec[..at];
        bchFec[at] := if simd[i, j] < 0 then 1 else 0;
        at := at + 1;
        assert bchFec[..at] == done + [bchFec[at - 1]];
      }
    }

    /** Hard decisions of the information part of every lane, block after block. */
    method HardOut(c: Code, ghost lanes: seq<seq<int>>)
      requires Valid() && Fits(c) && Shaped(lanes, c.Length())
      requires forall k: nat :: k < LANES ==> Lane(k, c.Length()) == lanes[k]
      modifies bchFec
      ensures bchFec[..LANES * c.k] == Flat(HardBlocks(lanes, c.k, LANES))
    {
      hide Flat;
      var at := 0;
      FlatNone<Bit>(HardBlocks(lanes, c.k, 0));
      for j := 0 to LANES
        invariant at == j * c.k && at <= LANES * c.k <= bchFec.Length && bchFec[..at] == Flat(HardBlocks(lanes, c.k, j))
        modifies bchFec
      {
        RoomForBlock(j, c.k, LANES * c.k);
        HardLane(c, j, at);
        OneMoreBlock(j, c.k);
        at := at + c.k;
        FlatAppend(HardBlocks(lanes, c.k, j), Hard(lanes[j], c.k));
        assert HardBlocks(lanes, c.k, j + 1) == HardBlocks(lanes, c.k, j) + [Hard(lanes[j], c.k)];
      }
    }

    /** One batch: transposed, decoded by the core and, unless that fails, sent on as hard decisions block by block. */
    method Execute(c: Code, batch: seq<int>, core: seq<seq<int>> -> Outcome)
      requires Valid() && Fits(c) && |batch| == LANES * c.Length()
      requires var r := core(LanesOf(c, batch)); r.Decoded? ==> Shaped(r.lanes, c.Length())
      modifies this, simd, bufferA, bufferB
      ensures Valid()
      ensures match core(LanesOf(c, batch))
              case Failed => sent == old(sent)
              case Decoded(lanes) => sent == old(sent) + [Flat(HardBlocks(lanes, c.k, LANES))]
    {
      hide Deparity, Lane, Flat;
      ghost var wanted := LanesOf(c, batch);
      for k := 0 to LANES
        invariant forall y: nat :: y < k ==> Lane(y, c.Length()) == wanted[y]
        modifies simd
      {
        FillLane(c, batch, k);
      }
      var lanes := seq(LANES, k requires 0 <= k < LANES reads simd => Lane(k, c.Length()));
      assert lanes == wanted;
      var r := core(lanes);
      if r.Failed? {
        return;
      }
      StoreLanes(c, r.lanes);
      HardOut(c, r.lanes);
      var lenOut := c.k * LANES;
      if swapBuffer {
        swapBuffer := false;
        sent := sent + [bufferA[..lenOut]];
        bchFec := bufferB;
      } else {
        swapBuffer := true;
        sent := sent + [bufferB[..lenOut]];
        bchFec := bufferA;
      }
    }
  }

  lemma HardNone(lane: seq<int>)
    ensures Hard(lane, 0) == []
  {
  }

  lemma OneMoreBlock(j: nat, size: nat)
    ensures (j + 1) * size == j * size + size
  {
  }

  lemma HardGrows(lane: seq<int>, i: nat)
    requires i < |lane|
    ensures Hard(lane, i + 1) == Hard(lane, i) + [if lane[i] < 0 then 1 else 0]
  {
  }

  /** The information part of `lane` and its parity before (t, s) are in place. */
  ghost predicate LaneSoFar(c: Code, block: seq<int>, lane: seq<int>, t: nat, s: nat)
  {
    && |block| == |lane| == c.Length()
    && forall x: nat :: x < |lane| && (x < c.k || Reached(c, x, t, s)) ==> InLane(c, block, x, lane[x])
  }

  ghost predicate InLane(c: Code, block: seq<int>, x: nat, v: int)
  {
    x < c.Length() && Source(c, x) < |block| && v == block[Source(c, x)]
  }

  predicate Reached(c: Code, x: nat, t: nat, s: nat)
    requires c.k <= x
  {
    c.q > 0 && ((x - c.k) % c.q < t || ((x - c.k) % c.q == t && (x - c.k) / c.q < s))
  }

  lemma LaneStarts(c: Code, block: seq<int>, lane: seq<int>)
    requires |block| == |lane| == c.Length() && lane[..c.k] == block[..c.k]
    ensures LaneSoFar(c, block, lane, 0, 0)
  {
    forall x: nat | x < |lane| && (x < c.k || Reached(c, x, 0, 0)) ensures InLane(c, block, x, lane[x]) {
      assert x < c.k ==> lane[..c.k][x] == block[..c.k][x];
    }
  }

  lemma LaneStep(c: Code, block: seq<int>, lane: seq<int>, t: nat, s: nat)
    requires LaneSoFar(c, block, lane, t, s) && t < c.q && s < GROUP
    ensures var i, j := c.k + c.q * s + t, c.k + GROUP * t + s;
            i < |lane| && j < |block| && LaneSoFar(c, block, lane[i := block[j]], t, s + 1)
  {
    LaneIndex(c, t, s);
    var i, j := c.k + c.q * s + t, c.k + GROUP * t + s;
    SourceInside(c, i);
    var next := lane[i := block[j]];
    forall x: nat | x < |next| && (x < c.k || Reached(c, x, t, s + 1)) ensures InLane(c, block, x, next[x]) {
      if x != i {
        OnlyHere(c, x, t, s);
        assert InLane(c, block, x, lane[x]);
      }
    }
  }

  lemma OnlyHere(c: Code, x: nat, t: nat, s: nat)
    requires t < c.q && x != c.k + c.q * s + t && (x < c.k || Reached(c, x, t, s + 1))
    ensures x < c.k || Reached(c, x, t, s)
  {
    if x >= c.k {
      assert x - c.k == c.q * ((x - c.k) / c.q) + (x - c.k) % c.q;
    }
  }

  lemma LaneWraps(c: Code, block: seq<int>, lane: seq<int>, t: nat)
    requires LaneSoFar(c, block, lane, t, GROUP) && t < c.q
    ensures LaneSoFar(c, block, lane, t + 1, 0)
  {
    hide InLane, Reached;
    forall x: nat | x < |lane| && (x < c.k || Reached(c, x, t + 1, 0)) ensures InLane(c, block, x, lane[x]) {
      if x >= c.k {
        WholeGroup(c, x, t);
      }
    }
  }

  lemma WholeGroup(c: Code, x: nat, t: nat)
    requires c.k <= x < c.Length() && Reached(c, x, t + 1, 0)
    ensures Reached(c, x, t, GROUP)
  {
    GroupOf(x - c.k, c.q);
  }

  lemma LaneEnds(c: Code, block: seq<int>, lane: seq<int>)
    requires LaneSoFar(c, block, lane, c.q, 0)
    ensures lane == Deparity(c, block)
  {
    forall x: nat | x < |lane| ensures lane[x] == Deparity(c, block)[x] {
      if x >= c.k {
        GroupOf(x - c.k, c.q);
        assert Reached(c, x, c.q, 0);
      }
      assert InLane(c, block, x, lane[x]);
    }
  }
}
