/** Batches of FEC blocks laid end to end, one for each lane of the decoder. */
module Batches {
  import opened Primes

  const LANES := 32

  function Flat<T>(blocks: seq<seq<T>>): seq<T>
  {
    if blocks == [] then [] else Flat(blocks[..|blocks| - 1]) + blocks[|blocks| - 1]
  }

  lemma FlatNone<T>(blocks: seq<seq<T>>)
    requires blocks == []
    ensures Flat(blocks) == []
  {
  }

  lemma FlatAppend<T>(blocks: seq<seq<T>>, s: seq<T>)
    ensures Flat(blocks + [s]) == Flat(blocks) + s
  {
    assert (blocks + [s])[..|blocks|] == blocks;
  }

  /** Block `k` of equally long blocks laid end to end. */
  lemma {:induction false} FlatAt<T>(blocks: seq<seq<T>>, size: nat, k: nat)
    requires k < |blocks| && forall i :: 0 <= i < |blocks| ==> |blocks[i]| == size
    ensures |Flat(blocks)| == |blocks| * size && k * size + size <= |blocks| * size
    ensures Flat(blocks)[k * size..k * size + size] == blocks[k]
    decreases |blocks|
  {
    var last := |blocks| - 1;
    RoomFor(k, |blocks|, size);
    assert |blocks| * size == last * size + size;
    if k < last {
      FlatAt(blocks[..last], size, k);
    } else {
      FlatLength(blocks[..last], size);
    }
  }

  lemma {:induction false} FlatLength<T>(blocks: seq<seq<T>>, size: nat)
    requires forall i :: 0 <= i < |blocks| ==> |blocks[i]| == size
    ensures |Flat(blocks)| == |blocks| * size
  {
    if blocks != [] {
      FlatLength(blocks[..|blocks| - 1], size);
      assert |blocks| * size == (|blocks| - 1) * size + size;
    }
  }

  lemma RoomForBlock(blocks: nat, size: nat, length: nat)
    requires blocks < LANES && length >= LANES * size
    ensures blocks * size + size <= length
  {
    RoomFor(blocks, LANES, size);
  }

  /** Block `k` of a batch of blocks of `size`. */
  function BlockOf<T>(batch: seq<T>, size: nat, k: nat): (block: seq<T>)
    requires k < LANES && |batch| == LANES * size
    ensures |block| == size
  {
    RoomForBlock(k, size, |batch|);
    batch[k * size..k * size + size]
  }
}
