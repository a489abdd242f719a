/** The fractional resampler: a cubic through four samples, evaluated at accumulated positions. Arithmetic is exact. */
module Resampler {
  import opened Samples

  /** The cubic of four samples at -3/2, -1/2, 1/2 and 3/2, in the source's coefficients. */
  function Cubic(y3: real, y2: real, y1: real, y0: real, x: real): real
  {
    var even1, even2 := y3 + y0, y2 + y1;
    var odd1, odd2 := y3 - y0, y2 - y1;
    var a0 := 9.0 / 16.0 * even2 - 1.0 / 16.0 * even1;
    var a1 := 1.0 / 8.0 * odd1 - 11.0 / 8.0 * odd2;
    var a2 := 1.0 / 4.0 * (even1 - even2);
    var a3 := 3.0 / 2.0 * odd2 - 1.0 / 2.0 * odd1;
    a3 * (x * x * x) + a2 * (x * x) + a1 * x + a0
  }

  /** The slope of the cubic. */
  function Slope(y3: real, y2: real, y1: real, y0: real, x: real): real
  {
    var even1, even2 := y3 + y0, y2 + y1;
    var odd1, odd2 := y3 - y0, y2 - y1;
    3.0 * (3.0 / 2.0 * odd2 - 1.0 / 2.0 * odd1) * (x * x) + 1.0 / 2.0 * (even1 - even2) * x + (1.0 / 8.0 * odd1 - 11.0 / 8.0 * odd2)
  }

  /** It meets the two middle samples, there with the slopes of their neighbours' chords: successive cubics join smoothly. */
  lemma CubicMeetsSamples(y3: real, y2: real, y1: real, y0: real)
    ensures Cubic(y3, y2, y1, y0, -0.5) == y2 && Cubic(y3, y2, y1, y0, 0.5) == y1
    ensures Slope(y3, y2, y1, y0, -0.5) == (y1 - y3) / 2.0 && Slope(y3, y2, y1, y0, 0.5) == (y0 - y2) / 2.0
  {
    assert (-0.5) * (-0.5) * (-0.5) == -0.125 && 0.5 * 0.5 * 0.5 == 0.125;
    assert (-0.5) * (-0.5) == 0.25 && 0.5 * 0.5 == 0.25;
  }

  /** `Slope` is the slope of `Cubic`: the difference quotient differs from it by a multiple of the step. */
  lemma SlopeOfCubic(y3: real, y2: real, y1: real, y0: real, a2: real, a3: real, x: real, h: real)
    requires a2 == 1.0 / 4.0 * ((y3 + y0) - (y2 + y1)) && a3 == 3.0 / 2.0 * (y2 - y1) - 1.0 / 2.0 * (y3 - y0)
    ensures Cubic(y3, y2, y1, y0, x + h) - Cubic(y3, y2, y1, y0, x) == Rise(Slope(y3, y2, y1, y0, x), a2 + 3.0 * a3 * x + a3 * h, h)
  {
    hide *;
    var a0 := 9.0 / 16.0 * (y2 + y1) - 1.0 / 16.0 * (y3 + y0);
    var a1 := 1.0 / 8.0 * (y3 - y0) - 11.0 / 8.0 * (y2 - y1);
    CubicIs(y3, y2, y1, y0, x, a0, a1, a2, a3);
    CubicIs(y3, y2, y1, y0, x + h, a0, a1, a2, a3);
    PolynomialDifference(a0, a1, a2, a3, x, h);
  }

  /** A step along the slope and a multiple of its square. */
  function Rise(slope: real, bend: real, h: real): real
  {
    slope * h + bend * (h * h)
  }

  function Polynomial(a0: real, a1: real, a2: real, a3: real, x: real): real
  {
    a3 * (x * x * x) + a2 * (x * x) + a1 * x + a0
  }

  function Derivative(a1: real, a2: real, a3: real, x: real): real
  {
    3.0 * a3 * (x * x) + 2.0 * a2 * x + a1
  }

  lemma CubicIs(y3: real, y2: real, y1: real, y0: real, x: real, a0: real, a1: real, a2: real, a3: real)
    requires a0 == 9.0 / 16.0 * (y2 + y1) - 1.0 / 16.0 * (y3 + y0) && a1 == 1.0 / 8.0 * (y3 - y0) - 11.0 / 8.0 * (y2 - y1)
    requires a2 == 1.0 / 4.0 * ((y3 + y0) - (y2 + y1)) && a3 == 3.0 / 2.0 * (y2 - y1) - 1.0 / 2.0 * (y3 - y0)
    ensures Cubic(y3, y2, y1, y0, x) == Polynomial(a0, a1, a2, a3, x) && Slope(y3, y2, y1, y0, x) == Derivative(a1, a2, a3, x)
  {
    assert 1.0 / 2.0 * ((y3 + y0) - (y2 + y1)) == 2.0 * a2;
  }

  lemma PolynomialDifference(a0: real, a1: real, a2: real, a3: real, x: real, h: real)
    ensures Polynomial(a0, a1, a2, a3, x + h) - Polynomial(a0, a1, a2, a3, x)
            == Rise(Derivative(a1, a2, a3, x), a2 + 3.0 * a3 * x + a3 * h, h)
  {
    Cube(x, h);
    Square(x, h);
    Distribute(a3, x * x * x, 3.0 * (x * x * h) + 3.0 * (x * (h * h)) + h * (h * h));
    Distribute(a3, 3.0 * (x * x * h) + 3.0 * (x * (h * h)), h * (h * h));
    Distribute(a3, 3.0 * (x * x * h), 3.0 * (x * (h * h)));
    Distribute(a2, x * x, 2.0 * (x * h) + h * h);
    Distribute(a2, 2.0 * (x * h), h * h);
    Distribute(a1, x, h);
    Collect(a1, a2, a3, x, h);
  }

  lemma Square(x: real, h: real)
    ensures (x + h) * (x + h) == x * x + (2.0 * (x * h) + h * h)
  {
  }

  lemma Cube(x: real, h: real)
    ensures (x + h) * (x + h) * (x + h) == x * x * x + (3.0 * (x * x * h) + 3.0 * (x * (h * h)) + h * (h * h))
  {
    Square(x, h);
    var s := (x + h) * (x + h);
    assert s * (x + h) == s * x + s * h;
  }

  lemma Distribute(a: real, p: real, q: real)
    ensures a * (p + q) == a * p + a * q
  {
  }

  /** The terms of a difference of cubics, collected into slope and bend. */
  lemma Collect(a1: real, a2: real, a3: real, x: real, h: real)
    ensures Rise(Derivative(a1, a2, a3, x), a2 + 3.0 * a3 * x + a3 * h, h)
            == a3 * (3.0 * (x * x * h)) + a3 * (3.0 * (x * (h * h))) + a3 * (h * (h * h))
               + (a2 * (2.0 * (x * h)) + a2 * (h * h)) + a1 * h
  {
    var d, e, f := 3.0 * a3 * (x * x), 2.0 * a2 * x, a1;
    assert (d + e + f) * h == d * h + e * h + f * h;
    var s := h * h;
    assert (a2 + 3.0 * a3 * x + a3 * h) * s == a2 * s + 3.0 * a3 * x * s + a3 * h * s;
  }

  /** Samples of a quadratic are interpolated exactly. */
  lemma ExactOnQuadratics(a: real, b: real, c: real, x: real)
    ensures var q := (t: real) => a * (t * t) + b * t + c;
            Cubic(q(-1.5), q(-0.5), q(0.5), q(1.5), x) == q(x)
  {
  }

  /** Sample `i` of a stream, which is zero before it starts. */
  function Sample(s: seq<Complex>, i: int): Complex
  {
    if 0 <= i < |s| then s[i] else ZERO
  }

  function CubicOf(y3: Complex, y2: Complex, y1: Complex, y0: Complex, x: real): Complex
  {
    Complex(Cubic(y3.re, y2.re, y1.re, y0.re, x), Cubic(y3.im, y2.im, y1.im, y0.im, x))
  }

  /** The stream at position `t`: the cubic of the sample at `t`'s whole part and the three before it, at an offset in [-1/2, 1/2). */
  function At(s: seq<Complex>, t: real): Complex
  {
    var i := t.Floor;
    CubicOf(Sample(s, i - 3), Sample(s, i - 2), Sample(s, i - 1), Sample(s, i), t - i as real - 0.5)
  }

  /** A position inside a stream reads the same whatever follows. */
  lemma AtPrefix(s: seq<Complex>, more: seq<Complex>, t: real)
    requires 0.0 <= t < |s| as real
    ensures At(s + more, t) == At(s, t)
  {
    assert t.Floor < |s|;
  }

  /** Whole positions are the samples, two late: the cubic at -1/2 meets the second sample before. */
  lemma AtWhole(s: seq<Complex>, i: nat)
    ensures At(s, i as real) == Sample(s, i - 2)
  {
    var t := i as real;
    assert t.Floor == i;
    CubicMeetsSamples(Sample(s, i - 3).re, Sample(s, i - 2).re, Sample(s, i - 1).re, Sample(s, i).re);
    CubicMeetsSamples(Sample(s, i - 3).im, Sample(s, i - 2).im, Sample(s, i - 1).im, Sample(s, i).im);
  }

  // ---- What the stream between its samples is ----

  /** A quadratic, `q` its coefficients from the highest down. */
  datatype Quadratic = Quadratic(a: real, b: real, c: real) {
    function Value(t: real): real
    {
      a * (t * t) + b * t + c
    }
  }

  /** Sample `i` lies on two quadratics, its real part on one and its imaginary part on the other. */
  predicate OnQuadratics(s: seq<Complex>, i: int, q: Quadratic, r: Quadratic)
  {
    Sample(s, i) == Complex(q.Value(i as real), r.Value(i as real))
  }

  /** If the four samples around a position lie on quadratics, the stream there is on them too, in both parts, two samples late. */
  lemma AtOnQuadratics(s: seq<Complex>, t: real, q: Quadratic, r: Quadratic)
    requires var i := t.Floor;
             OnQuadratics(s, i - 3, q, r) && OnQuadratics(s, i - 2, q, r) && OnQuadratics(s, i - 1, q, r) && OnQuadratics(s, i, q, r)
    ensures At(s, t) == Complex(q.Value(t - 2.0), r.Value(t - 2.0))
  {
    var i := t.Floor as real;
    QuadraticPart(q, i, t);
    QuadraticPart(r, i, t);
    hide Cubic, Quadratic.Value;
    assert (t.Floor - 3) as real == i - 3.0 && (t.Floor - 2) as real == i - 2.0 && (t.Floor - 1) as real == i - 1.0;
  }

  lemma QuadraticPart(q: Quadratic, i: real, t: real)
    ensures Cubic(q.Value(i - 3.0), q.Value(i - 2.0), q.Value(i - 1.0), q.Value(i), t - i - 0.5) == q.Value(t - 2.0)
  {
    hide *;
    var m := i - 1.5;
    Recentred(q, m, -1.5, i - 3.0);
    Recentred(q, m, -0.5, i - 2.0);
    Recentred(q, m, 0.5, i - 1.0);
    Recentred(q, m, 1.5, i);
    Recentred(q, m, t - i - 0.5, t - 2.0);
    ExactOnQuadratic(About(q, m), t - i - 0.5);
  }

  lemma ExactOnQuadratic(p: Quadratic, x: real)
    ensures Cubic(p.Value(-1.5), p.Value(-0.5), p.Value(0.5), p.Value(1.5), x) == p.Value(x)
  {
    ValuesAround(p);
    hide *;
    CubicOfValues(p, p.Value(-1.5), p.Value(-0.5), p.Value(0.5), p.Value(1.5), x);
  }

  lemma ValuesAround(p: Quadratic)
    ensures p.Value(-1.5) == 2.25 * p.a - 1.5 * p.b + p.c && p.Value(1.5) == 2.25 * p.a + 1.5 * p.b + p.c
    ensures p.Value(-0.5) == 0.25 * p.a - 0.5 * p.b + p.c && p.Value(0.5) == 0.25 * p.a + 0.5 * p.b + p.c
  {
    assert (-1.5) * (-1.5) == 2.25 && (-0.5) * (-0.5) == 0.25;
  }

  lemma CubicOfValues(p: Quadratic, y3: real, y2: real, y1: real, y0: real, x: real)
    requires y3 == 2.25 * p.a - 1.5 * p.b + p.c && y0 == 2.25 * p.a + 1.5 * p.b + p.c
    requires y2 == 0.25 * p.a - 0.5 * p.b + p.c && y1 == 0.25 * p.a + 0.5 * p.b + p.c
    ensures Cubic(y3, y2, y1, y0, x) == p.Value(x)
  {
    assert 3.0 / 2.0 * (y2 - y1) - 1.0 / 2.0 * (y3 - y0) == 0.0;
    assert 1.0 / 4.0 * ((y3 + y0) - (y2 + y1)) == p.a;
    assert 1.0 / 8.0 * (y3 - y0) - 11.0 / 8.0 * (y2 - y1) == p.b;
    assert 9.0 / 16.0 * (y2 + y1) - 1.0 / 16.0 * (y3 + y0) == p.c;
    CubicIs(y3, y2, y1, y0, x, p.c, p.b, p.a, 0.0);
  }

  /** The quadratic as seen from `m`. */
  function About(q: Quadratic, m: real): Quadratic
  {
    Quadratic(q.a, 2.0 * q.a * m + q.b, q.Value(m))
  }

  lemma Recentred(q: Quadratic, m: real, x: real, t: real)
    requires t == m + x
    ensures q.Value(t) == About(q, m).Value(x)
  {
    assert (m + x) * (m + x) == m * m + 2.0 * (m * x) + x * x;
    Distribute(q.a, m * m + 2.0 * (m * x), x * x);
    Distribute(q.a, m * m, 2.0 * (m * x));
    Distribute(q.b, m, x);
    assert (2.0 * q.a * m + q.b) * x == 2.0 * q.a * m * x + q.b * x;
    assert q.a * (2.0 * (m * x)) == 2.0 * q.a * m * x;
  }

  /** `c` times one stream plus `d` times another. */
  function Combined(c: Complex, s: seq<Complex>, d: Complex, u: seq<Complex>): (r: seq<Complex>)
    requires |s| == |u|
    ensures |r| == |s|
  {
    seq(|s|, i requires 0 <= i < |s| => Plus(TimesComplex(c, s[i]), TimesComplex(d, u[i])))
  }

  /** Reading a stream between its samples is linear over the complex numbers. */
  lemma AtIsLinear(c: Complex, s: seq<Complex>, d: Complex, u: seq<Complex>, t: real)
    requires |s| == |u|
    ensures At(Combined(c, s, d, u), t) == Plus(TimesComplex(c, At(s, t)), TimesComplex(d, At(u, t)))
  {
    var i := t.Floor;
    var x := t - i as real - 0.5;
    CombinedSample(c, s, d, u, i - 3);
    CombinedSample(c, s, d, u, i - 2);
    CombinedSample(c, s, d, u, i - 1);
    CombinedSample(c, s, d, u, i);
    CombinedCubic(c, Sample(s, i - 3), Sample(s, i - 2), Sample(s, i - 1), Sample(s, i),
                  d, Sample(u, i - 3), Sample(u, i - 2), Sample(u, i - 1), Sample(u, i), x);
  }

  lemma CombinedSample(c: Complex, s: seq<Complex>, d: Complex, u: seq<Complex>, i: int)
    requires |s| == |u|
    ensures Sample(Combined(c, s, d, u), i) == Plus(TimesComplex(c, Sample(s, i)), TimesComplex(d, Sample(u, i)))
  {
  }

  lemma CombinedCubic(c: Complex, y3: Complex, y2: Complex, y1: Complex, y0: Complex,
                      d: Complex, z3: Complex, z2: Complex, z1: Complex, z0: Complex, x: real)
    ensures CubicOf(Plus(TimesComplex(c, y3), TimesComplex(d, z3)), Plus(TimesComplex(c, y2), TimesComplex(d, z2)),
                    Plus(TimesComplex(c, y1), TimesComplex(d, z1)), Plus(TimesComplex(c, y0), TimesComplex(d, z0)), x)
            == Plus(TimesComplex(c, CubicOf(y3, y2, y1, y0, x)), TimesComplex(d, CubicOf(z3, z2, z1, z0, x)))
  {
    CubicOfSum(TimesComplex(c, y3), TimesComplex(c, y2), TimesComplex(c, y1), TimesComplex(c, y0),
               TimesComplex(d, z3), TimesComplex(d, z2), TimesComplex(d, z1), TimesComplex(d, z0), x);
    CubicOfMultiple(c, y3, y2, y1, y0, x);
    CubicOfMultiple(d, z3, z2, z1, z0, x);
  }

  lemma CubicOfSum(y3: Complex, y2: Complex, y1: Complex, y0: Complex, z3: Complex, z2: Complex, z1: Complex, z0: Complex, x: real)
    ensures CubicOf(Plus(y3, z3), Plus(y2, z2), Plus(y1, z1), Plus(y0, z0), x)
            == Plus(CubicOf(y3, y2, y1, y0, x), CubicOf(z3, z2, z1, z0, x))
  {
    hide Cubic;
    CubicAdds(y3.re, y2.re, y1.re, y0.re, z3.re, z2.re, z1.re, z0.re, y3.re + z3.re, y2.re + z2.re, y1.re + z1.re, y0.re + z0.re, x);
    CubicAdds(y3.im, y2.im, y1.im, y0.im, z3.im, z2.im, z1.im, z0.im, y3.im + z3.im, y2.im + z2.im, y1.im + z1.im, y0.im + z0.im, x);
  }

  lemma CubicOfMultiple(c: Complex, y3: Complex, y2: Complex, y1: Complex, y0: Complex, x: real)
    ensures CubicOf(TimesComplex(c, y3), TimesComplex(c, y2), TimesComplex(c, y1), TimesComplex(c, y0), x)
            == TimesComplex(c, CubicOf(y3, y2, y1, y0, x))
  {
    hide Cubic;
    var z3, z2, z1, z0 := TimesComplex(c, y3), TimesComplex(c, y2), TimesComplex(c, y1), TimesComplex(c, y0);
    RealPart(c, y3, y2, y1, y0, z3.re, z2.re, z1.re, z0.re, x);
    ImaginaryPart(c, y3, y2, y1, y0, z3.im, z2.im, z1.im, z0.im, x);
  }

  lemma RealPart(c: Complex, y3: Complex, y2: Complex, y1: Complex, y0: Complex, z3: real, z2: real, z1: real, z0: real, x: real)
    requires z3 == TimesComplex(c, y3).re && z2 == TimesComplex(c, y2).re && z1 == TimesComplex(c, y1).re && z0 == TimesComplex(c, y0).re
    ensures Cubic(z3, z2, z1, z0, x) == TimesComplex(c, CubicOf(y3, y2, y1, y0, x)).re
  {
    hide Cubic, RealProduct, TimesComplex;
    TimesParts(c, y3);
    TimesParts(c, y2);
    TimesParts(c, y1);
    TimesParts(c, y0);
    TimesParts(c, CubicOf(y3, y2, y1, y0, x));
    CubicScales(c.re, y3.re, y2.re, y1.re, y0.re, x);
    CubicScales(c.im, y3.im, y2.im, y1.im, y0.im, x);
    CubicAdds(z3, z2, z1, z0, RealProduct(c.im, y3.im), RealProduct(c.im, y2.im), RealProduct(c.im, y1.im), RealProduct(c.im, y0.im),
              RealProduct(c.re, y3.re), RealProduct(c.re, y2.re), RealProduct(c.re, y1.re), RealProduct(c.re, y0.re), x);
  }

  lemma ImaginaryPart(c: Complex, y3: Complex, y2: Complex, y1: Complex, y0: Complex, z3: real, z2: real, z1: real, z0: real, x: real)
    requires z3 == TimesComplex(c, y3).im && z2 == TimesComplex(c, y2).im && z1 == TimesComplex(c, y1).im && z0 == TimesComplex(c, y0).im
    ensures Cubic(z3, z2, z1, z0, x) == TimesComplex(c, CubicOf(y3, y2, y1, y0, x)).im
  {
    hide Cubic, RealProduct, TimesComplex;
    TimesParts(c, y3);
    TimesParts(c, y2);
    TimesParts(c, y1);
    TimesParts(c, y0);
    TimesParts(c, CubicOf(y3, y2, y1, y0, x));
    CubicScales(c.re, y3.im, y2.im, y1.im, y0.im, x);
    CubicScales(c.im, y3.re, y2.re, y1.re, y0.re, x);
    CubicAdds(RealProduct(c.re, y3.im), RealProduct(c.re, y2.im), RealProduct(c.re, y1.im), RealProduct(c.re, y0.im),
              RealProduct(c.im, y3.re), RealProduct(c.im, y2.re), RealProduct(c.im, y1.re), RealProduct(c.im, y0.re), z3, z2, z1, z0, x);
  }

  function RealProduct(x: real, y: real): real
  {
    x * y
  }

  lemma TimesParts(c: Complex, x: Complex)
    ensures TimesComplex(c, x).re == RealProduct(c.re, x.re) - RealProduct(c.im, x.im)
    ensures TimesComplex(c, x).im == RealProduct(c.re, x.im) + RealProduct(c.im, x.re)
  {
  }

  lemma ProductLaws(m: real, a: real, y: real, z: real)
    ensures RealProduct(a, y + z) == RealProduct(a, y) + RealProduct(a, z)
    ensures RealProduct(a, RealProduct(m, y)) == RealProduct(m, RealProduct(a, y))
  {
  }

  lemma CubicAdds(y3: real, y2: real, y1: real, y0: real, z3: real, z2: real, z1: real, z0: real,
                  s3: real, s2: real, s1: real, s0: real, x: real)
    requires s3 == y3 + z3 && s2 == y2 + z2 && s1 == y1 + z1 && s0 == y0 + z0
    ensures Cubic(s3, s2, s1, s0, x) == Cubic(y3, y2, y1, y0, x) + Cubic(z3, z2, z1, z0, x)
  {
    hide Cubic, RealProduct;
    var a, b, c, d := Weights(x);
    CubicIsWeighted(y3, y2, y1, y0, x, a, b, c, d);
    CubicIsWeighted(z3, z2, z1, z0, x, a, b, c, d);
    CubicIsWeighted(s3, s2, s1, s0, x, a, b, c, d);
    ProductLaws(0.0, a, y3, z3);
    ProductLaws(0.0, b, y2, z2);
    ProductLaws(0.0, c, y1, z1);
    ProductLaws(0.0, d, y0, z0);
  }

  lemma CubicScales(m: real, y3: real, y2: real, y1: real, y0: real, x: real)
    ensures Cubic(RealProduct(m, y3), RealProduct(m, y2), RealProduct(m, y1), RealProduct(m, y0), x) == RealProduct(m, Cubic(y3, y2, y1, y0, x))
  {
    hide Cubic, RealProduct;
    var a, b, c, d := Weights(x);
    CubicIsWeighted(y3, y2, y1, y0, x, a, b, c, d);
    CubicIsWeighted(RealProduct(m, y3), RealProduct(m, y2), RealProduct(m, y1), RealProduct(m, y0), x, a, b, c, d);
    WeightedScales(m, a, b, c, d, y3, y2, y1, y0);
  }

  lemma WeightedScales(m: real, a: real, b: real, c: real, d: real, y3: real, y2: real, y1: real, y0: real)
    ensures RealProduct(a, RealProduct(m, y3)) + RealProduct(b, RealProduct(m, y2)) + RealProduct(c, RealProduct(m, y1)) + RealProduct(d, RealProduct(m, y0))
            == RealProduct(m, RealProduct(a, y3) + RealProduct(b, y2) + RealProduct(c, y1) + RealProduct(d, y0))
  {
    hide RealProduct;
    ProductLaws(m, a, y3, 0.0);
    ProductLaws(m, b, y2, 0.0);
    ProductLaws(m, c, y1, 0.0);
    ProductLaws(m, d, y0, 0.0);
    ProductLaws(0.0, m, RealProduct(a, y3) + RealProduct(b, y2) + RealProduct(c, y1), RealProduct(d, y0));
    ProductLaws(0.0, m, RealProduct(a, y3) + RealProduct(b, y2), RealProduct(c, y1));
    ProductLaws(0.0, m, RealProduct(a, y3), RealProduct(b, y2));
  }

  /** The weights of the four samples at an offset. */
  lemma Weights(x: real) returns (a: real, b: real, c: real, d: real)
    ensures a == -0.5 * (x * x * x) + 0.25 * (x * x) + 0.125 * x - 0.0625
    ensures b == 1.5 * (x * x * x) - 0.25 * (x * x) - 1.375 * x + 0.5625
    ensures c == -1.5 * (x * x * x) - 0.25 * (x * x) + 1.375 * x + 0.5625
    ensures d == 0.5 * (x * x * x) + 0.25 * (x * x) - 0.125 * x - 0.0625
  {
    a := -0.5 * (x * x * x) + 0.25 * (x * x) + 0.125 * x - 0.0625;
    b := 1.5 * (x * x * x) - 0.25 * (x * x) - 1.375 * x + 0.5625;
    c := -1.5 * (x * x * x) - 0.25 * (x * x) + 1.375 * x + 0.5625;
    d := 0.5 * (x * x * x) + 0.25 * (x * x) - 0.125 * x - 0.0625;
  }

  lemma CubicIsWeighted(y3: real, y2: real, y1: real, y0: real, x: real, a: real, b: real, c: real, d: real)
    requires a == -0.5 * (x * x * x) + 0.25 * (x * x) + 0.125 * x - 0.0625
    requires b == 1.5 * (x * x * x) - 0.25 * (x * x) - 1.375 * x + 0.5625
    requires c == -1.5 * (x * x * x) - 0.25 * (x * x) + 1.375 * x + 0.5625
    requires d == 0.5 * (x * x * x) + 0.25 * (x * x) - 0.125 * x - 0.0625
    ensures Cubic(y3, y2, y1, y0, x) == RealProduct(a, y3) + RealProduct(b, y2) + RealProduct(c, y1) + RealProduct(d, y0)
  {
  }

  /**
   Successive pieces of the stream join: at a whole position the piece that ends there and the one that starts there have the
   same value and the same slope, in both parts.
   */
  lemma PiecesJoin(s: seq<Complex>, i: int)
    ensures var y4, y3, y2, y1, y0 := Sample(s, i - 4), Sample(s, i - 3), Sample(s, i - 2), Sample(s, i - 1), Sample(s, i);
            && At(s, i as real) == CubicOf(y3, y2, y1, y0, -0.5) == CubicOf(y4, y3, y2, y1, 0.5) == y2
            && SlopeOf(y3, y2, y1, y0, -0.5) == SlopeOf(y4, y3, y2, y1, 0.5) == Complex((y1.re - y3.re) / 2.0, (y1.im - y3.im) / 2.0)
  {
    var y4, y3, y2, y1, y0 := Sample(s, i - 4), Sample(s, i - 3), Sample(s, i - 2), Sample(s, i - 1), Sample(s, i);
    assert (i as real).Floor == i;
    hide Cubic, Slope;
    CubicMeetsSamples(y3.re, y2.re, y1.re, y0.re);
    CubicMeetsSamples(y3.im, y2.im, y1.im, y0.im);
    CubicMeetsSamples(y4.re, y3.re, y2.re, y1.re);
    CubicMeetsSamples(y4.im, y3.im, y2.im, y1.im);
  }

  /** The slopes of both parts. */
  function SlopeOf(y3: Complex, y2: Complex, y1: Complex, y0: Complex, x: real): Complex
  {
    Complex(Slope(y3.re, y2.re, y1.re, y0.re, x), Slope(y3.im, y2.im, y1.im, y0.im, x))
  }

  // ---- Outputs ----

  /** Every output lies inside the stream, at its position. */
  ghost predicate AllAt(s: seq<Complex>, from: real, step: real, out: seq<Complex>)
  {
    forall k :: 0 <= k < |out| ==> ResampledAt(s, from, step, out, k)
  }

  /** `out` is the stream at `from`, `from + step`, ... as far as the stream goes. */
  ghost predicate Resampled(s: seq<Complex>, from: real, step: real, out: seq<Complex>)
  {
    AllAt(s, from, step, out) && from + |out| as real * step >= |s| as real
  }

  lemma AllAtNone(s: seq<Complex>, from: real, step: real)
    ensures AllAt(s, from, step, [])
  {
  }

  lemma ResampledNone(s: seq<Complex>, from: real, step: real)
    requires from >= |s| as real
    ensures Resampled(s, from, step, []) && from + 0 as real * step == from
  {
  }

  lemma AllAtMore(s: seq<Complex>, from: real, step: real, out: seq<Complex>, y: Complex)
    requires AllAt(s, from, step, out)
    requires var t := from + |out| as real * step; 0.0 <= t < |s| as real && y == At(s, t)
    ensures AllAt(s, from, step, out + [y])
  {
    hide At;
    var more := out + [y];
    assert ResampledAt(s, from, step, more, |out|);
    forall k | 0 <= k < |more| ensures ResampledAt(s, from, step, more, k) {
      if k < |out| {
        assert ResampledAt(s, from, step, out, k);
      }
    }
  }

  ghost predicate ResampledAt(s: seq<Complex>, from: real, step: real, out: seq<Complex>, k: nat)
    requires k < |out|
  {
    0.0 <= from + k as real * step < |s| as real && out[k] == At(s, from + k as real * step)
  }

  /** Output `k` exists exactly when its position lies before the stream's end. */
  lemma OutputExists(s: seq<Complex>, from: real, step: real, out: seq<Complex>, k: nat)
    requires step > 0.0 && Resampled(s, from, step, out)
    ensures k < |out| <==> from + k as real * step < |s| as real
  {
    hide At;
    if k < |out| {
      assert ResampledAt(s, from, step, out, k);
    } else {
      Shift(from, |out|, k - |out|, step);
      Sign((k - |out|) as real, step);
    }
  }

  /** The number of outputs and their values are determined: chunking cannot matter. */
  lemma ResampledIsUnique(s: seq<Complex>, from: real, step: real, out: seq<Complex>, other: seq<Complex>)
    requires step > 0.0 && Resampled(s, from, step, out) && Resampled(s, from, step, other)
    ensures out == other
  {
    OutputExists(s, from, step, out, |out|);
    OutputExists(s, from, step, other, |out|);
    OutputExists(s, from, step, out, |other|);
    OutputExists(s, from, step, other, |other|);
    forall k | 0 <= k < |out| ensures out[k] == other[k] {
      assert ResampledAt(s, from, step, out, k) && ResampledAt(s, from, step, other, k);
    }
  }

  /** From a stream's start, N samples give ceil(N / step) outputs. */
  lemma OutputCount(s: seq<Complex>, step: real, out: seq<Complex>)
    requires step > 0.0 && Resampled(s, 0.0, step, out)
    ensures |out| == -(-(|s| as real / step)).Floor
  {
    hide Resampled;
    var m, q := |out|, |s| as real / step;
    OutputExists(s, 0.0, step, out, m);
    QuotientTimes(|s| as real, step);
    Sign(m as real - q, step);
    Sign(q - m as real, step);
    if m > 0 {
      OutputExists(s, 0.0, step, out, m - 1);
      Sign((m - 1) as real - q, step);
    } else {
      Sign(q, step);
    }
  }

  lemma QuotientTimes(x: real, step: real)
    requires step > 0.0
    ensures x / step * step == x
  {
  }

  lemma Sign(x: real, step: real)
    requires step > 0.0
    ensures x * step > 0.0 <==> x > 0.0
    ensures x * step >= 0.0 <==> x >= 0.0
  {
  }

  /** Resampling goes on where it stopped: the outputs of two chunks in turn are those of both at once. */
  lemma ResampledAppend(s: seq<Complex>, more: seq<Complex>, from: real, step: real, out: seq<Complex>, next: seq<Complex>)
    requires step > 0.0 && Resampled(s, from, step, out) && Resampled(s + more, from + |out| as real * step, step, next)
    ensures Resampled(s + more, from, step, out + next)
  {
    hide ResampledAt;
    forall k | 0 <= k < |out + next| ensures ResampledAt(s + more, from, step, out + next, k) {
      if k < |out| {
        EarlierOutput(s, more, from, step, out, next, k);
      } else {
        LaterOutput(s + more, from, step, out, next, k - |out|);
      }
    }
    Shift(from, |out|, |next|, step);
  }

  lemma EarlierOutput(s: seq<Complex>, more: seq<Complex>, from: real, step: real, out: seq<Complex>, next: seq<Complex>, k: nat)
    requires k < |out| && ResampledAt(s, from, step, out, k)
    ensures ResampledAt(s + more, from, step, out + next, k)
  {
    hide At;
    var t := from + k as real * step;
    AtPrefix(s, more, t);
    assert (out + next)[k] == out[k] == At(s, t);
  }

  lemma LaterOutput(s: seq<Complex>, from: real, step: real, out: seq<Complex>, next: seq<Complex>, k: nat)
    requires k < |next| && ResampledAt(s, from + |out| as real * step, step, next, k)
    ensures ResampledAt(s, from, step, out + next, |out| + k)
  {
    hide At;
    Shift(from, |out|, k, step);
    var t := from + |out| as real * step + k as real * step;
    assert t == from + (|out| + k) as real * step && (out + next)[|out| + k] == next[k] == At(s, t);
  }

  lemma Shift(from: real, a: nat, b: nat, step: real)
    ensures from + a as real * step + b as real * step == from + (a + b) as real * step
  {
  }

  lemma OneMoreSample(s: seq<Complex>, input: seq<Complex>, i: nat)
    requires i < |input|
    ensures s + input[..i] + [input[i]] == s + input[..i + 1]
  {
  }

  class Interpolator {
    var delayData1: Complex
    var delayData2: Complex
    var delayData3: Complex
    var x1: real

    ghost var samples: seq<Complex>   // everything resampled so far

    /** The position of the next output. */
    ghost function Next(): real
      reads this
    {
      x1 + 0.5 + |samples| as real
    }

    ghost predicate Valid()
      reads this
    {
      && x1 >= -0.5
      && delayData1 == Sample(samples, |samples| - 1)
      && delayData2 == Sample(samples, |samples| - 2)
      && delayData3 == Sample(samples, |samples| - 3)
    }

    constructor ()
      ensures Valid() && samples == [] && Next() == 0.0
    {
      delayData1, delayData2, delayData3 := ZERO, ZERO, ZERO;
      x1 := -0.5;
      samples := [];
    }

    /** The next output's position is not before the last sample. */
    lemma NextBeyond()
      requires Valid()
      ensures Next() >= |samples| as real
    {
    }

    /** Resamples one chunk with a step of `delayX`. */
    method Execute(input: seq<Complex>, delayX: real) returns (out: seq<Complex>)
      requires Valid() && delayX > 0.0
      modifies this
      ensures Valid() && samples == old(samples) + input
      ensures Resampled(samples, old(Next()), delayX, out)
      ensures Next() == old(Next()) + |out| as real * delayX
    {
      hide *;
      out := [];
      ghost var from := Next();
      NextBeyond();
      ResampledNone(samples, from, delayX);
      assert samples + [] == samples;
      for i := 0 to |input|
        invariant Valid() && samples == old(samples) + input[..i]
        invariant Resampled(samples, from, delayX, out) && Next() == from + |out| as real * delayX
      {
        ghost var before := samples;
        var more := Inner(input[i], delayX);
        ResampledAppend(before, [input[i]], from, delayX, out, more);
        Shift(from, |out|, |more|, delayX);
        OneMoreSample(old(samples), input, i);
        out := out + more;
      }
      assert input[..|input|] == input;
    }

    /** The outputs for one more sample. */
    method Inner(x: Complex, delayX: real) returns (out: seq<Complex>)
      requires Valid() && delayX > 0.0
      modifies this
      ensures Valid() && samples == old(samples) + [x]
      ensures Resampled(samples, old(Next()), delayX, out)
      ensures Next() == old(Next()) + |out| as real * delayX
      ensures forall k :: 0 <= k < |out| ==>
                Evaluated(old(delayData3), old(delayData2), old(delayData1), x,
                          old(Next()) + k as real * delayX - |old(samples)| as real - 0.5, out[k])
    {
      hide ResampledAt, At, Cubic, CubicOf, AllAt, Evaluated;
      out := [];
      ghost var s, n, from := samples + [x], |samples|, Next();
      AllAtNone(s, from, delayX);
      while x1 < 0.5
        invariant x1 >= -0.5 && x1 + 0.5 + n as real == from + |out| as real * delayX
        invariant AllAt(s, from, delayX, out)
        modifies `x1
        decreases (0.5 - x1) / delayX
      {
        var y := CubicOf(delayData3, delayData2, delayData1, x, x1);
        HereIsAt(s, n, x1, from + |out| as real * delayX);
        AllAtMore(s, from, delayX, out, y);
        OneStep(0.5 - x1, delayX);
        Shift(from, |out|, 1, delayX);
        out := out + [y];
        x1 := x1 + delayX;
      }
      x1 := x1 - 1.0;
      delayData3 := delayData2;
      delayData2 := delayData1;
      delayData1 := x;
      samples := s;
      AllInside(s, n, from, delayX, out);
    }
  }

  /** `y` is the cubic of four samples at an offset in [-1/2, 1/2), between the middle two. */
  ghost predicate Evaluated(y3: Complex, y2: Complex, y1: Complex, y0: Complex, offset: real, y: Complex)
  {
    -0.5 <= offset < 0.5 && y == CubicOf(y3, y2, y1, y0, offset)
  }

  /** The outputs for the last sample of a stream are evaluated between the two samples before it. */
  lemma AllInside(s: seq<Complex>, n: nat, from: real, step: real, out: seq<Complex>)
    requires |s| == n + 1 && step > 0.0 && from >= n as real && AllAt(s, from, step, out)
    ensures forall k :: 0 <= k < |out| ==>
              Evaluated(Sample(s, n - 3), Sample(s, n - 2), Sample(s, n - 1), s[n], from + k as real * step - n as real - 0.5, out[k])
  {
    hide At, CubicOf;
    forall k: nat | k < |out|
      ensures Evaluated(Sample(s, n - 3), Sample(s, n - 2), Sample(s, n - 1), s[n], from + k as real * step - n as real - 0.5, out[k])
    {
      assert ResampledAt(s, from, step, out, k);
      Sign(k as real, step);
      var t := from + k as real * step;
      HereIsAt(s, n, t - n as real - 0.5, t);
    }
  }

  lemma HereIsAt(s: seq<Complex>, n: nat, x1: real, t: real)
    requires |s| == n + 1 && -0.5 <= x1 < 0.5 && t == x1 + 0.5 + n as real
    ensures 0.0 <= t < |s| as real
    ensures At(s, t) == CubicOf(Sample(s, n - 3), Sample(s, n - 2), Sample(s, n - 1), s[n], x1)
  {
    hide Cubic;
    assert t.Floor == n;
  }

  lemma OneStep(x: real, step: real)
    requires step > 0.0 && x > 0.0
    ensures (x - step) / step == x / step - 1.0 && x / step > 0.0
  {
    QuotientTimes(x, step);
    QuotientTimes(x - step, step);
    var d := (x - step) / step - (x / step - 1.0);
    assert d * step == 0.0;
    Sign(d, step);
    Sign(-d, step);
    Sign(x / step, step);
  }
}
