/** Complex samples and cells, as exact reals. */
module Samples {

  datatype Complex = Complex(re: real, im: real)

  const ZERO := Complex(0.0, 0.0)

  function Plus(x: Complex, y: Complex): Complex
  {
    Complex(x.re + y.re, x.im + y.im)
  }

  /** The complex product. */
  function TimesComplex(c: Complex, x: Complex): Complex
  {
    Complex(c.re * x.re - c.im * x.im, c.re * x.im + c.im * x.re)
  }

  function Abs(v: real): (r: real)
    ensures r >= 0.0 && (r == v || r == -v)
  {
    if v < 0.0 then -v else v
  }

  lemma Regroup(x: real, y: real, z: real)
    ensures x * y * z == x * (y * z)
  {
  }
}
