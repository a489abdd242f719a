/**
 From the cells of an OFDM symbol to their order before the frequency interleaver (section 8.5 of EN 302 755): the
 demodulator's placing through the tables of the address generator.
 */
module SymbolPath {
  import opened Samples
  import opened Permutations
  import opened FreqDeinterleaver
  import opened ChannelEstimate
  import opened DataSymbol

  /**
   Cells `x` on data carriers `a`, interleaved as the receiver undoes it: by the odd order in symbols of even index; in symbols
   of odd index by the even order, or in 32K by the odd order the other way round.
   */
  ghost predicate Interleaved(mode: FftMode, n: nat, idxSymbol: nat, a: seq<Complex>, x: seq<Complex>)
  {
    var even, odd := EvenOrder(mode, n), OddOrder(mode, n);
    && |a| == |x| == n
    && if idxSymbol % 2 == 0 then forall p :: 0 <= p < n ==> CarriedAt(a, odd, x, p)
       else if !Is32K(mode) then forall p :: 0 <= p < n ==> CarriedAt(a, even, x, p)
       else forall p :: 0 <= p < n ==> CarriedAt(x, odd, a, p)
  }

  /** Entry `p` of `x` is in `a` where the order sends it. */
  ghost predicate CarriedAt(a: seq<Complex>, order: seq<nat>, x: seq<Complex>, p: nat)
  {
    p < |x| && p < |order| && order[p] < |a| && a[order[p]] == x[p]
  }

  /** The corrected cells of the data carriers, from the lowest up. */
  function Carried(l: Layout, cells: seq<Complex>, derotate: (Place, Complex) -> Complex): (a: seq<Complex>)
    requires |cells| == |l.carriers|
    ensures |a| == |Released(l, |l.carriers|)|
  {
    seq(|Released(l, |l.carriers|)|, d requires 0 <= d < |Released(l, |l.carriers|)| => Corrected(l, cells, derotate, d))
  }

  /**
   A symbol whose places are all filled comes out as `x` if and only if `x` was sent interleaved so, whichever its index
   and the FFT size.
   */
  lemma SymbolRestoredExactly(mode: FftMode, n: nat, hEven: seq<nat>, hOdd: seq<nat>, idxSymbol: nat, l: Layout, cells: seq<Complex>,
                              derotate: (Place, Complex) -> Complex, out: seq<Complex>, x: seq<Complex>)
    requires Undo(mode, n, hEven, hOdd) && n <= MaxStates(mode)
    requires |cells| == |l.carriers| >= 2 && l.Releases(|l.carriers| - 1) && |DataCarriers(l, |l.carriers|)| == n
    requires |out| == |x| == n && Placed(out, TableOf(idxSymbol, hEven, hOdd), Released(l, |l.carriers|), cells, derotate)
    ensures out == x <==> Interleaved(mode, n, idxSymbol, Carried(l, cells, derotate), x)
  {
    hide *;
    var a, h := Carried(l, cells, derotate), TableOf(idxSymbol, hEven, hOdd);
    AllPlaced(l, cells, derotate, h, n, out);
    OrdersUndone(mode, n, hEven, hOdd);
    TableIs(idxSymbol, hEven, hOdd);
    if idxSymbol % 2 == 0 {
      ThroughInverse(h, OddOrder(mode, n), n, a, out, x);
    } else if !Is32K(mode) {
      ThroughInverse(h, EvenOrder(mode, n), n, a, out, x);
    } else {
      SameTable(h, OddOrder(mode, n), n, a, out);
      ThroughOrder(OddOrder(mode, n), n, a, out, x);
    }
    InterleavedIs(mode, n, idxSymbol, a, x);
  }

  lemma TableIs(idxSymbol: nat, hEven: seq<nat>, hOdd: seq<nat>)
    ensures TableOf(idxSymbol, hEven, hOdd) == if idxSymbol % 2 == 0 then hOdd else hEven
  {
  }

  lemma InterleavedIs(mode: FftMode, n: nat, idxSymbol: nat, a: seq<Complex>, x: seq<Complex>)
    requires |a| == |x| == n
    ensures Interleaved(mode, n, idxSymbol, a, x)
            <==> if idxSymbol % 2 == 0 then forall p :: 0 <= p < n ==> CarriedAt(a, OddOrder(mode, n), x, p)
                 else if !Is32K(mode) then forall p :: 0 <= p < n ==> CarriedAt(a, EvenOrder(mode, n), x, p)
                 else forall p :: 0 <= p < n ==> CarriedAt(x, OddOrder(mode, n), a, p)
  {
    hide EvenOrder, OddOrder, CarriedAt;
  }

  /** Each data carrier's cell is where its table entry says. */
  lemma AllPlaced(l: Layout, cells: seq<Complex>, derotate: (Place, Complex) -> Complex, h: seq<nat>, n: nat, out: seq<Complex>)
    requires |cells| == |l.carriers| >= 2 && l.Releases(|l.carriers| - 1) && |DataCarriers(l, |l.carriers|)| == n
    requires |out| == n && Placed(out, h, Released(l, |l.carriers|), cells, derotate)
    ensures |Carried(l, cells, derotate)| == n && forall d :: 0 <= d < n ==> CarriedAt(out, h, Carried(l, cells, derotate), d)
  {
    AllReleased(l);
    hide Released, DataCarriers, Layout.Releases;
    var slots := Released(l, |l.carriers|);
    forall d | 0 <= d < n ensures CarriedAt(out, h, Carried(l, cells, derotate), d) {
      assert PlacedAt(out, h, slots, cells, derotate, d);
    }
  }

  lemma OrdersUndone(mode: FftMode, n: nat, hEven: seq<nat>, hOdd: seq<nat>)
    requires Undo(mode, n, hEven, hOdd) && n <= MaxStates(mode)
    ensures IsPermutation(EvenOrder(mode, n), n) && IsPermutation(OddOrder(mode, n), n) && Inverts(hOdd, OddOrder(mode, n), n)
    ensures if Is32K(mode) then n <= |hEven| && hEven[..n] == OddOrder(mode, n) else Inverts(hEven, EvenOrder(mode, n), n)
  {
    hide IsPermutation, Inverts, EvenOrder, OddOrder, MaxStates;
  }

  lemma SameTable(h: seq<nat>, order: seq<nat>, n: nat, a: seq<Complex>, out: seq<Complex>)
    requires n <= |h| && h[..n] == order && forall d :: 0 <= d < n ==> CarriedAt(out, h, a, d)
    ensures forall d :: 0 <= d < n ==> CarriedAt(out, order, a, d)
  {
    forall d | 0 <= d < n ensures CarriedAt(out, order, a, d) {
      assert CarriedAt(out, h, a, d) && h[..n][d] == order[d];
    }
  }

  /** What is placed through an inverse comes out in order exactly when it was placed by the list inverted. */
  lemma ThroughInverse(h: seq<nat>, order: seq<nat>, n: nat, a: seq<Complex>, out: seq<Complex>, x: seq<Complex>)
    requires IsPermutation(order, n) && Inverts(h, order, n) && |a| == |out| == |x| == n
    requires forall d :: 0 <= d < n ==> CarriedAt(out, h, a, d)
    ensures out == x <==> forall p :: 0 <= p < n ==> CarriedAt(a, order, x, p)
  {
    forall p | 0 <= p < n ensures out[p] == a[order[p]] {
      assert CarriedAt(out, h, a, order[p]);
    }
    if forall p :: 0 <= p < n ==> CarriedAt(a, order, x, p) {
      forall p | 0 <= p < n ensures out[p] == x[p] {
        assert CarriedAt(a, order, x, p);
      }
    }
  }

  /** What is placed through a list comes out in order exactly when it was read through it. */
  lemma ThroughOrder(order: seq<nat>, n: nat, a: seq<Complex>, out: seq<Complex>, x: seq<Complex>)
    requires IsPermutation(order, n) && |a| == |out| == |x| == n
    requires forall d :: 0 <= d < n ==> CarriedAt(out, order, a, d)
    ensures out == x <==> forall p :: 0 <= p < n ==> CarriedAt(x, order, a, p)
  {
    if out == x {
      forall p | 0 <= p < n ensures CarriedAt(x, order, a, p) {
        assert CarriedAt(out, order, a, p);
      }
    }
    if forall p :: 0 <= p < n ==> CarriedAt(x, order, a, p) {
      forall v | 0 <= v < n ensures out[v] == x[v] {
        var p := Reaches(order, n, v);
        assert CarriedAt(x, order, a, p) && CarriedAt(out, order, a, p);
      }
    }
  }

  ghost predicate HasBoth(order: seq<nat>, v: nat, w: nat, x: nat, y: nat)
  {
    v < |order| && w < |order| && order[v] == x && order[w] == y
  }

  /** Both orders keep the addresses in the order they are generated in. */
  lemma OrdersKept(mode: FftMode, n: nat, i: nat, j: nat, v: nat, w: nat)
    requires i < j < MaxStates(mode)
    ensures HasBoth(EvenOrder(mode, n), v, w, EvenAddress(mode, i), EvenAddress(mode, j)) ==> v < w
    ensures HasBoth(OddOrder(mode, n), v, w, OddAddress(mode, i), OddAddress(mode, j)) ==> v < w
  {
    var even, odd := EvenList(mode), OddList(mode);
    AllAddressesPermute(mode, even, odd);
    assert even[i] == EvenAddress(mode, i) && even[j] == EvenAddress(mode, j) && odd[i] == OddAddress(mode, i) && odd[j] == OddAddress(mode, j);
    hide EvenList, OddList, EvenAddress, OddAddress, MaxStates, Filter;
    if HasBoth(EvenOrder(mode, n), v, w, even[i], even[j]) {
      FilterKeepsOrder(even, n, i, j, v, w);
    }
    if HasBoth(OddOrder(mode, n), v, w, odd[i], odd[j]) {
      FilterKeepsOrder(odd, n, i, j, v, w);
    }
  }
}
