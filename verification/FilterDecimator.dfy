/**
 The decimating filter: a 64-tap convolution of which every second output is kept, computed on a short
 linear buffer that is moved back when full, eight lanes at a time. Arithmetic is exact.
 */
module FilterDecimator {
  import opened Samples
  import opened Resampler

  const TAPS := 64
  const LEN_BUFFER := 128
  const STEP := 2

  function Part(x: Complex, im: bool): real
  {
    if im then x.im else x.re
  }

  /** The first `k` terms of the convolution of one part of a window. */
  function Dot(h: seq<real>, w: seq<Complex>, im: bool, k: nat): real
    requires k <= |h| && k <= |w|
  {
    if k == 0 then 0.0 else Dot(h, w, im, k - 1) + Part(w[k - 1], im) * h[k - 1]
  }

  /** The last `n` samples of `s` up to and with sample `at`; zeros come before the stream. */
  function Window(s: seq<Complex>, at: int, n: nat): (w: seq<Complex>)
    ensures |w| == n
  {
    seq(n, i requires 0 <= i < n => Sample(s, at - n + 1 + i))
  }

  /** Output of the filter at sample `at`. */
  function Filtered(h: seq<real>, s: seq<Complex>, at: int): Complex
    requires |h| == TAPS
  {
    var w := Window(s, at, TAPS);
    Complex(Dot(h, w, false, TAPS), Dot(h, w, true, TAPS))
  }

  /** The decimated output for a whole stream: the filter at every second sample. */
  function Decimated(h: seq<real>, s: seq<Complex>): (out: seq<Complex>)
    requires |h| == TAPS
    ensures |out| == |s| / STEP
  {
    seq(|s| / STEP, m requires 0 <= m < |s| / STEP => Filtered(h, s, STEP * m + 1))
  }

  // ---- What the filter is: its impulse response, and superposition ----

  /** A stream that is zero but for `x` at `k`. */
  function Impulse(n: nat, k: nat, x: Complex): (s: seq<Complex>)
    ensures |s| == n
  {
    seq(n, i requires 0 <= i < n => if i == k then x else ZERO)
  }

  /** An impulse comes out as the taps from the last to the first, one a sample, times its two parts each for itself. */
  lemma ImpulseResponse(h: seq<real>, n: nat, k: nat, x: Complex, at: nat)
    requires |h| == TAPS && k < n
    ensures Filtered(h, Impulse(n, k, x), at)
            == if k <= at < k + TAPS then Complex(x.re * h[TAPS - 1 - (at - k)], x.im * h[TAPS - 1 - (at - k)]) else ZERO
  {
    var s := Impulse(n, k, x);
    var w, i := Window(s, at, TAPS), TAPS - 1 - (at as int - k);
    forall j | 0 <= j < TAPS ensures w[j] == if j == i then x else ZERO {
      assert w[j] == Sample(s, at - TAPS + 1 + j);
    }
    hide Window, Sample, Impulse;
    DotOfOne(h, w, false, TAPS, i, x);
    DotOfOne(h, w, true, TAPS, i, x);
  }

  lemma {:induction false} DotOfOne(h: seq<real>, w: seq<Complex>, im: bool, k: nat, i: int, x: Complex)
    requires k <= |h| && k <= |w| && forall j :: 0 <= j < k ==> w[j] == if j == i then x else ZERO
    ensures Dot(h, w, im, k) == if 0 <= i < k then (if im then x.im else x.re) * h[i] else 0.0
  {
    if k > 0 {
      DotOfOne(h, w, im, k - 1, i, x);
      assert 0.0 * h[k - 1] == 0.0;
    }
  }

  function Sum(s: seq<Complex>, t: seq<Complex>): (r: seq<Complex>)
    requires |s| == |t|
    ensures |r| == |s|
  {
    seq(|s|, i requires 0 <= i < |s| => Plus(s[i], t[i]))
  }

  /** The sum of two streams comes out as the sum of what they give. */
  lemma Superposition(h: seq<real>, s: seq<Complex>, t: seq<Complex>, at: int)
    requires |h| == TAPS && |s| == |t|
    ensures Filtered(h, Sum(s, t), at) == Plus(Filtered(h, s, at), Filtered(h, t, at))
  {
    var u, v, w := Window(s, at, TAPS), Window(t, at, TAPS), Window(Sum(s, t), at, TAPS);
    forall j | 0 <= j < TAPS ensures w[j] == Plus(u[j], v[j]) {
      var k := at - TAPS + 1 + j;
      assert w[j] == Sample(Sum(s, t), k) && u[j] == Sample(s, k) && v[j] == Sample(t, k);
    }
    hide Window, Sample, Sum;
    DotOfSum(h, u, v, w, false, TAPS);
    DotOfSum(h, u, v, w, true, TAPS);
  }

  lemma {:induction false} DotOfSum(h: seq<real>, u: seq<Complex>, v: seq<Complex>, w: seq<Complex>, im: bool, k: nat)
    requires k <= |h| && k <= |u| == |v| == |w| && forall j :: 0 <= j < k ==> w[j] == Plus(u[j], v[j])
    ensures Dot(h, w, im, k) == Dot(h, u, im, k) + Dot(h, v, im, k)
  {
    if k > 0 {
      DotOfSum(h, u, v, w, im, k - 1);
      Distributes(Part(u[k - 1], im), Part(v[k - 1], im), h[k - 1]);
    }
  }

  lemma Distributes(a: real, b: real, c: real)
    ensures (a + b) * c == a * c + b * c
  {
  }

  /** Of the filter's outputs every second is kept, from the second on. */
  lemma DecimatedIs(h: seq<real>, s: seq<Complex>, m: nat)
    requires |h| == TAPS
    ensures |Decimated(h, s)| == |s| / 2
    ensures m < |s| / 2 ==> Decimated(h, s)[m] == Filtered(h, s, 2 * m + 1)
  {
    hide Filtered;
  }

  // ---- Streams ----

  lemma DecimatedGrows(h: seq<real>, s: seq<Complex>, x: Complex)
    requires |h| == TAPS
    ensures Decimated(h, s + [x]) == Decimated(h, s) + if |s| % STEP == 1 then [Filtered(h, s + [x], |s|)] else []
  {
    hide Dot;
    forall m | 0 <= m < |s| / STEP ensures Filtered(h, s + [x], STEP * m + 1) == Filtered(h, s, STEP * m + 1) {
      WindowPrefix(s, x, STEP * m + 1, TAPS);
    }
  }

  lemma WindowPrefix(s: seq<Complex>, x: Complex, at: int, n: nat)
    requires at < |s|
    ensures Window(s + [x], at, n) == Window(s, at, n)
  {
    forall i | 0 <= i < n ensures Window(s + [x], at, n)[i] == Window(s, at, n)[i] {
      SamplePrefix(s, x, at - n + 1 + i);
    }
  }

  lemma SamplePrefix(s: seq<Complex>, x: Complex, j: int)
    requires j < |s|
    ensures Sample(s + [x], j) == Sample(s, j)
  {
  }

  // ---- Eight lanes ----

  /** Product `x` of the interleaved real and imaginary parts with the doubled taps. */
  function Product(h: seq<real>, w: seq<Complex>, x: nat): real
    requires |h| == |w| == TAPS && x < 2 * TAPS
  {
    Part(w[x / 2], x % 2 == 1) * h[x / 2]
  }

  /** The first `r` products of lane `l`, every eighth one. */
  function LaneSum(h: seq<real>, w: seq<Complex>, l: nat, r: nat): real
    requires |h| == |w| == TAPS && l < 8 && r <= 16
  {
    if r == 0 then 0.0 else LaneSum(h, w, l, r - 1) + Product(h, w, 8 * (r - 1) + l)
  }

  /** The even lanes together sum the real parts, the odd lanes the imaginary parts. */
  lemma {:induction false} LanesMakeDot(h: seq<real>, w: seq<Complex>, im: bool, r: nat)
    requires |h| == |w| == TAPS && r <= 16
    ensures var o := if im then 1 else 0;
            LaneSum(h, w, o, r) + LaneSum(h, w, 2 + o, r) + LaneSum(h, w, 4 + o, r) + LaneSum(h, w, 6 + o, r)
            == Dot(h, w, im, 4 * r)
  {
    hide LaneSum, Dot, Product;
    var o := if im then 1 else 0;
    if r == 0 {
      NoRows(h, w, im);
    } else {
      LanesMakeDot(h, w, im, r - 1);
      FourTerms(h, w, im, 4 * (r - 1));
      NextRow(h, w, o, r);
      NextRow(h, w, 2 + o, r);
      NextRow(h, w, 4 + o, r);
      NextRow(h, w, 6 + o, r);
    }
  }

  lemma NoRows(h: seq<real>, w: seq<Complex>, im: bool)
    requires |h| == |w| == TAPS
    ensures Dot(h, w, im, 0) == 0.0 && forall l: nat :: l < 8 ==> LaneSum(h, w, l, 0) == 0.0
  {
  }

  lemma NextRow(h: seq<real>, w: seq<Complex>, l: nat, r: nat)
    requires |h| == |w| == TAPS && l < 8 && 0 < r <= 16
    ensures LaneSum(h, w, l, r) == LaneSum(h, w, l, r - 1) + Product(h, w, 8 * (r - 1) + l)
  {
  }

  /** Four terms of the convolution are one product in each lane of the part. */
  lemma FourTerms(h: seq<real>, w: seq<Complex>, im: bool, j: nat)
    requires |h| == |w| == TAPS && j + 4 <= TAPS
    ensures var x := 2 * j + if im then 1 else 0;
            Dot(h, w, im, j + 4) == Dot(h, w, im, j) + Product(h, w, x) + Product(h, w, x + 2) + Product(h, w, x + 4) + Product(h, w, x + 6)
  {
    hide Product, Part;
    ProductIs(h, w, im, j);
    ProductIs(h, w, im, j + 1);
    ProductIs(h, w, im, j + 2);
    ProductIs(h, w, im, j + 3);
    assert Dot(h, w, im, j + 1) == Dot(h, w, im, j) + Part(w[j], im) * h[j];
    assert Dot(h, w, im, j + 2) == Dot(h, w, im, j + 1) + Part(w[j + 1], im) * h[j + 1];
    assert Dot(h, w, im, j + 3) == Dot(h, w, im, j + 2) + Part(w[j + 2], im) * h[j + 2];
    assert Dot(h, w, im, j + 4) == Dot(h, w, im, j + 3) + Part(w[j + 3], im) * h[j + 3];
  }

  lemma ProductIs(h: seq<real>, w: seq<Complex>, im: bool, j: nat)
    requires |h| == |w| == TAPS && j < TAPS
    ensures Product(h, w, 2 * j + if im then 1 else 0) == Part(w[j], im) * h[j]
  {
  }

  /** The vector loop: four rows of eight products at a time. */
  method SumLanes(h: seq<real>, w: seq<Complex>) returns (y: Complex)
    requires |h| == |w| == TAPS
    ensures y == Complex(Dot(h, w, false, TAPS), Dot(h, w, true, TAPS))
  {
    hide Product, Dot;
    var sum := seq(8, l => 0.0);
    var r := 0;
    while r < 16
      invariant r <= 16 && r % 4 == 0 && |sum| == 8 && forall l :: 0 <= l < 8 ==> sum[l] == LaneSum(h, w, l, r)
    {
      var next := seq(8, l requires 0 <= l < 8 && |sum| == 8 && r + 4 <= 16 =>
        sum[l] + ((Product(h, w, 8 * r + l) + Product(h, w, 8 * r + 8 + l))
                  + (Product(h, w, 8 * r + 16 + l) + Product(h, w, 8 * r + 24 + l))));
      forall l | 0 <= l < 8 ensures next[l] == LaneSum(h, w, l, r + 4) {
        FourRows(h, w, l, r);
      }
      sum := next;
      r := r + 4;
    }
    LanesMakeDot(h, w, false, 16);
    LanesMakeDot(h, w, true, 16);
    y := Complex(sum[0] + sum[2] + sum[4] + sum[6], sum[1] + sum[3] + sum[5] + sum[7]);
  }

  lemma FourRows(h: seq<real>, w: seq<Complex>, l: nat, r: nat)
    requires |h| == |w| == TAPS && l < 8 && r + 4 <= 16
    ensures LaneSum(h, w, l, r + 4)
            == LaneSum(h, w, l, r) + ((Product(h, w, 8 * r + l) + Product(h, w, 8 * r + 8 + l))
                                      + (Product(h, w, 8 * r + 16 + l) + Product(h, w, 8 * r + 24 + l)))
  {
    hide Product;
    assert LaneSum(h, w, l, r + 1) == LaneSum(h, w, l, r) + Product(h, w, 8 * r + l);
    assert LaneSum(h, w, l, r + 2) == LaneSum(h, w, l, r + 1) + Product(h, w, 8 * (r + 1) + l);
    assert LaneSum(h, w, l, r + 3) == LaneSum(h, w, l, r + 2) + Product(h, w, 8 * (r + 2) + l);
    assert LaneSum(h, w, l, r + 4) == LaneSum(h, w, l, r + 3) + Product(h, w, 8 * (r + 3) + l);
  }

  class Filter {
    const h: seq<real>
    const buffer: array<Complex>
    const beginPoint: nat := LEN_BUFFER / 2 - 1
    const wrapPoint: nat := LEN_BUFFER / 2 + 1
    var idxWriteBuffer: nat
    var idxReadBuffer: nat
    var d: nat

    ghost var samples: seq<Complex>   // everything filtered so far

    /** The buffer holds, from the read position to the write position, the last 63 samples. */
    ghost predicate Valid()
      reads this, buffer
    {
      && |h| == TAPS && buffer.Length == LEN_BUFFER
      && d == |samples| % STEP
      && idxWriteBuffer == idxReadBuffer + TAPS - 1 && idxWriteBuffer <= LEN_BUFFER
      && buffer[idxReadBuffer..idxWriteBuffer] == Window(samples, |samples| - 1, TAPS - 1)
    }

    constructor (taps: seq<real>)
      requires |taps| == TAPS
      ensures Valid() && samples == [] && h == taps && fresh(buffer)
    {
      h := taps;
      buffer := new Complex[LEN_BUFFER](_ => ZERO);
      idxWriteBuffer := LEN_BUFFER / 2 - 1;
      idxReadBuffer := 0;
      d := 0;
      samples := [];
      new;
      SilentWindow(buffer[..TAPS - 1]);
      assert buffer[idxReadBuffer..idxWriteBuffer] == buffer[..TAPS - 1];
    }

    /** Filters one chunk. Whatever the chunks, all the outputs together are the decimated convolution of all the input. */
    method Execute(input: seq<Complex>) returns (out: seq<Complex>)
      requires Valid()
      modifies this, buffer
      ensures Valid() && samples == old(samples) + input
      ensures Decimated(h, old(samples)) + out == Decimated(h, samples)
    {
      hide Decimated, Filtered, Window, Dot;
      out := [];
      for x := 0 to |input|
        invariant Valid() && samples == old(samples) + input[..x]
        invariant Decimated(h, old(samples)) + out == Decimated(h, samples)
      {
        DecimatedGrows(h, samples, input[x]);
        assert input[..x + 1] == input[..x] + [input[x]];
        var w := Shift(input[x]);
        if d == STEP {
          d := 0;
          var y := SumLanes(h, w);
          FilteredIs(h, samples, w);
          out := out + [y];
        }
      }
      assert input[..|input|] == input;
    }

    /** Puts a sample into the buffer, moved back first if it is full, and reads the window it completes. */
    method Shift(x: Complex) returns (w: seq<Complex>)
      requires Valid()
      modifies this, buffer
      ensures samples == old(samples) + [x] && d == old(d) + 1
      ensures w == Window(samples, |samples| - 1, TAPS)
      ensures idxWriteBuffer == idxReadBuffer + TAPS - 1 && idxWriteBuffer <= LEN_BUFFER
      ensures buffer[idxReadBuffer..idxWriteBuffer] == Window(samples, |samples| - 1, TAPS - 1)
    {
      if idxWriteBuffer == LEN_BUFFER {
        MoveBack();
        idxWriteBuffer := beginPoint;
        idxReadBuffer := 0;
      }
      WindowGrows(samples, x);
      samples := samples + [x];
      buffer[idxWriteBuffer] := x;
      idxWriteBuffer := idxWriteBuffer + 1;
      w := buffer[idxReadBuffer..idxReadBuffer + TAPS];
      idxReadBuffer := idxReadBuffer + 1;
      d := d + 1;
      assert buffer[idxReadBuffer..idxWriteBuffer] == w[1..];
    }

    /** Moves the last 63 samples to the front. */
    method MoveBack()
      requires buffer.Length == LEN_BUFFER
      modifies buffer
      ensures buffer[..beginPoint] == old(buffer[wrapPoint..])
    {
      for i := 0 to beginPoint
        invariant buffer[..i] == old(buffer[wrapPoint..wrapPoint + i])
        invariant buffer[wrapPoint..] == old(buffer[wrapPoint..])
      {
        buffer[i] := buffer[wrapPoint + i];
      }
    }
  }

  lemma SilentWindow(w: seq<Complex>)
    requires |w| == TAPS - 1 && forall i :: 0 <= i < |w| ==> w[i] == ZERO
    ensures w == Window([], -1, TAPS - 1)
  {
    var silent := Window([], -1, TAPS - 1);
    forall i | 0 <= i < |w| ensures w[i] == silent[i] {
      assert silent[i] == Sample([], i - TAPS + 1);
    }
  }

  lemma WindowGrows(s: seq<Complex>, x: Complex)
    ensures var w := Window(s, |s| - 1, TAPS - 1) + [x];
            w == Window(s + [x], |s|, TAPS) && w[1..] == Window(s + [x], |s|, TAPS - 1)
  {
    var w := Window(s, |s| - 1, TAPS - 1) + [x];
    var t := Window(s + [x], |s|, TAPS);
    forall i | 0 <= i < TAPS ensures w[i] == t[i] {
      if i < TAPS - 1 {
        SamplePrefix(s, x, |s| - TAPS + 1 + i);
        assert w[i] == Sample(s, |s| - TAPS + 1 + i);
      } else {
        assert w[i] == x == Sample(s + [x], |s|);
      }
    }
    forall i | 0 <= i < TAPS - 1 ensures w[1..][i] == Window(s + [x], |s|, TAPS - 1)[i] {
      assert w[1 + i] == t[1 + i];
    }
  }

  lemma FilteredIs(h: seq<real>, s: seq<Complex>, w: seq<Complex>)
    requires |h| == TAPS && w == Window(s, |s| - 1, TAPS)
    ensures Filtered(h, s, |s| - 1) == Complex(Dot(h, w, false, TAPS), Dot(h, w, true, TAPS))
  {
  }
}
