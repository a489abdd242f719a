/**
 The six registers of the receiver, shared by the cell and the frequency interleavers, and
 the certificates that each has the longest possible period: the squares x^2, x^4, ...
 modulo its characteristic polynomial, and the powers of x that its cofactors name.
 */
module Registers {
  import opened Bits
  import opened Gf2
  import opened Lfsr
  import opened Primes
  import opened Period

  function Register(n: nat): (g: Reg)
    requires 9 <= n <= 14
    ensures g.Ok() && g.n == n
  {
    match n
    case 9 => Reg(9, [0, 4])
    case 10 => Reg(10, [0, 3])
    case 11 => Reg(11, [0, 2])
    case 12 => Reg(12, [0, 1, 4, 6])
    case 13 => Reg(13, [0, 1, 4, 5, 9, 11])
    case _ => Reg(14, [0, 1, 2, 12])
  }

  /** Every register of the receiver runs through all its nonzero states. */
  lemma RegisterIsMaximal(n: nat)
    requires 9 <= n <= 14
    ensures Maximal(Register(n))
  {
    match n {
      case 9 => Maximal9();
      case 10 => Maximal10();
      case 11 => Maximal11();
      case 12 => Maximal12();
      case 13 => Maximal13();
      case _ => Maximal14();
    }
  }

  // ---- Degree 9 ----

  lemma Low9()
    ensures TapPolynomial([0, 4]) == 0x11
  {
    hide Monomial;
    Monomials();
    TapPolynomialPlus([], 0, 0x0, 0x1);
    assert [] + [0] == [0];
    TapPolynomialPlus([0], 4, 0x1, 0x10);
    assert [0] + [4] == [0, 4];
  }

  lemma Word9()
    ensures Modulus(0x100, 0x1ff, 0x11).Ok() && Drop(0x1ff, 9) == 0 && Within(2, 0x1ff)
  {
  }

  lemma Describes9()
    ensures Describes(Modulus(0x100, 0x1ff, 0x11), Register(9))
    ensures Within(2, 0x1ff) && Register(9).Size() == 512
  {
    hide Modulus.Ok, Drop, Within, Monomial, Pow2, TapPolynomial;
    Low9();
    Word9();
    Monomials();
    PowersOfTwo();
  }

  lemma Products9_0()
    ensures var p := Modulus(0x100, 0x1ff, 0x11);
      && Mul(p, 0x2, 0x2) == 0x4
      && Mul(p, 0x4, 0x4) == 0x10
      && Mul(p, 0x10, 0x10) == 0x100
      && Mul(p, 0x100, 0x100) == 0xc4
      && Mul(p, 0xc4, 0xc4) == 0xa9
      && Mul(p, 0xa9, 0xa9) == 0x52
      && Mul(p, 0x52, 0x52) == 0x18c
      && Mul(p, 0x18c, 0x18c) == 0xa5
      && Mul(p, 0xa5, 0xa5) == 0x2
  {
  }

  lemma Products9_1()
    ensures var p := Modulus(0x100, 0x1ff, 0x11);
      && Mul(p, 0x2, 0x100) == 0x11
      && Mul(p, 0x11, 0x52) == 0x150
      && Mul(p, 0x2, 0x4) == 0x8
      && Mul(p, 0x8, 0x10) == 0x80
  {
  }

  lemma Powers9_0(g: Reg, p: Modulus)
    requires p == Modulus(0x100, 0x1ff, 0x11)
    requires PowerOfX(g, p, 1, 0x2)
    ensures PowerOfX(g, p, 2, 0x4)
    ensures PowerOfX(g, p, 4, 0x10)
    ensures PowerOfX(g, p, 8, 0x100)
    ensures PowerOfX(g, p, 64, 0x52)
    ensures PowerOfX(g, p, 512, 0x2)
  {
    Products9_0();
    hide *;
    PowersMultiply(g, p, 1, 0x2, 1, 0x2, 0x4);
    PowersMultiply(g, p, 2, 0x4, 2, 0x4, 0x10);
    PowersMultiply(g, p, 4, 0x10, 4, 0x10, 0x100);
    PowersMultiply(g, p, 8, 0x100, 8, 0x100, 0xc4);
    PowersMultiply(g, p, 16, 0xc4, 16, 0xc4, 0xa9);
    PowersMultiply(g, p, 32, 0xa9, 32, 0xa9, 0x52);
    PowersMultiply(g, p, 64, 0x52, 64, 0x52, 0x18c);
    PowersMultiply(g, p, 128, 0x18c, 128, 0x18c, 0xa5);
    PowersMultiply(g, p, 256, 0xa5, 256, 0xa5, 0x2);
  }

  lemma Powers9_1(g: Reg, p: Modulus)
    requires p == Modulus(0x100, 0x1ff, 0x11)
    requires PowerOfX(g, p, 1, 0x2) && PowerOfX(g, p, 2, 0x4) && PowerOfX(g, p, 4, 0x10) && PowerOfX(g, p, 8, 0x100)
             && PowerOfX(g, p, 64, 0x52)
    ensures PowerOfX(g, p, 7, 0x80)
    ensures PowerOfX(g, p, 73, 0x150)
  {
    Products9_1();
    hide *;
    PowersMultiply(g, p, 1, 0x2, 8, 0x100, 0x11);
    PowersMultiply(g, p, 9, 0x11, 64, 0x52, 0x150);
    PowersMultiply(g, p, 1, 0x2, 2, 0x4, 0x8);
    PowersMultiply(g, p, 3, 0x8, 4, 0x10, 0x80);
  }

  lemma Primes9()
    ensures Product([7, 73]) == 511
    ensures Prime(7) && Prime(73)
  {
    PrimeByTrial(7, 2);
    PrimeByTrial(73, 8);
    assert Product([73]) == 73;
  }

  lemma Returns9(g: Reg)
    requires g == Register(9)
    ensures Returns(g, 511) && !Returns(g, 73) && !Returns(g, 7)
  {
    hide *;
    var p := Modulus(0x100, 0x1ff, 0x11);
    Describes9();
    PowerOne(g, p);
    Powers9_0(g, p);
    Powers9_1(g, p);
    Closes(g, p);
    NotBackAfter(g, p, 73, 0, 0x150);
    NotBackAfter(g, p, 7, 0, 0x80);
  }

  lemma Maximal9()
    ensures Maximal(Register(9))
  {
    hide *;
    var g := Register(9);
    Describes9();
    Returns9(g);
    Primes9();
    PeriodFromFactors(g, [7, 73]);
  }

  // ---- Degree 10 ----

  lemma Low10()
    ensures TapPolynomial([0, 3]) == 0x9
  {
    hide Monomial;
    Monomials();
    TapPolynomialPlus([], 0, 0x0, 0x1);
    assert [] + [0] == [0];
    TapPolynomialPlus([0], 3, 0x1, 0x8);
    assert [0] + [3] == [0, 3];
  }

  lemma Word10()
    ensures Modulus(0x200, 0x3ff, 0x9).Ok() && Drop(0x3ff, 10) == 0 && Within(2, 0x3ff)
  {
  }

  lemma Describes10()
    ensures Describes(Modulus(0x200, 0x3ff, 0x9), Register(10))
    ensures Within(2, 0x3ff) && Register(10).Size() == 1024
  {
    hide Modulus.Ok, Drop, Within, Monomial, Pow2, TapPolynomial;
    Low10();
    Word10();
    Monomials();
    PowersOfTwo();
  }

  lemma Products10_0()
    ensures var p := Modulus(0x200, 0x3ff, 0x9);
      && Mul(p, 0x2, 0x2) == 0x4
      && Mul(p, 0x4, 0x4) == 0x10
      && Mul(p, 0x10, 0x10) == 0x100
      && Mul(p, 0x100, 0x100) == 0x240
      && Mul(p, 0x240, 0x240) == 0x136
  {
  }

  lemma Products10_2()
    ensures var p := Modulus(0x200, 0x3ff, 0x9);
      && Mul(p, 0x136, 0x136) == 0x35d
      && Mul(p, 0x35d, 0x35d) == 0x227
      && Mul(p, 0x227, 0x227) == 0x10e
      && Mul(p, 0x10e, 0x10e) == 0x214
  {
  }

  lemma Products10_1()
    ensures var p := Modulus(0x200, 0x3ff, 0x9);
      && Mul(p, 0x214, 0x214) == 0x2
      && Mul(p, 0x100, 0x240) == 0x19
      && Mul(p, 0x19, 0x35d) == 0x36
      && Mul(p, 0x36, 0x10e) == 0x361
      && Mul(p, 0x4, 0x10) == 0x40
      && Mul(p, 0x40, 0x100) == 0x90
      && Mul(p, 0x90, 0x240) == 0x249
      && Mul(p, 0x249, 0x35d) == 0x19b
      && Mul(p, 0x2, 0x136) == 0x26c
  {
  }

  lemma Powers10_0(g: Reg, p: Modulus)
    requires p == Modulus(0x200, 0x3ff, 0x9)
    requires PowerOfX(g, p, 1, 0x2)
    ensures PowerOfX(g, p, 2, 0x4)
    ensures PowerOfX(g, p, 4, 0x10)
    ensures PowerOfX(g, p, 8, 0x100)
    ensures PowerOfX(g, p, 16, 0x240)
    ensures PowerOfX(g, p, 32, 0x136)
    ensures PowerOfX(g, p, 64, 0x35d)
    ensures PowerOfX(g, p, 256, 0x10e)
    ensures PowerOfX(g, p, 512, 0x214)
  {
    Products10_0();
    Products10_2();
    hide *;
    PowersMultiply(g, p, 1, 0x2, 1, 0x2, 0x4);
    PowersMultiply(g, p, 2, 0x4, 2, 0x4, 0x10);
    PowersMultiply(g, p, 4, 0x10, 4, 0x10, 0x100);
    PowersMultiply(g, p, 8, 0x100, 8, 0x100, 0x240);
    PowersMultiply(g, p, 16, 0x240, 16, 0x240, 0x136);
    PowersMultiply(g, p, 32, 0x136, 32, 0x136, 0x35d);
    PowersMultiply(g, p, 64, 0x35d, 64, 0x35d, 0x227);
    PowersMultiply(g, p, 128, 0x227, 128, 0x227, 0x10e);
    PowersMultiply(g, p, 256, 0x10e, 256, 0x10e, 0x214);
  }

  lemma Powers10_1(g: Reg, p: Modulus)
    requires p == Modulus(0x200, 0x3ff, 0x9)
    requires PowerOfX(g, p, 1, 0x2) && PowerOfX(g, p, 2, 0x4) && PowerOfX(g, p, 4, 0x10) && PowerOfX(g, p, 8, 0x100)
             && PowerOfX(g, p, 16, 0x240) && PowerOfX(g, p, 32, 0x136) && PowerOfX(g, p, 64, 0x35d)
                && PowerOfX(g, p, 256, 0x10e) && PowerOfX(g, p, 512, 0x214)
    ensures PowerOfX(g, p, 33, 0x26c)
    ensures PowerOfX(g, p, 94, 0x19b)
    ensures PowerOfX(g, p, 344, 0x361)
    ensures PowerOfX(g, p, 1024, 0x2)
  {
    Products10_1();
    hide *;
    PowersMultiply(g, p, 512, 0x214, 512, 0x214, 0x2);
    PowersMultiply(g, p, 8, 0x100, 16, 0x240, 0x19);
    PowersMultiply(g, p, 24, 0x19, 64, 0x35d, 0x36);
    PowersMultiply(g, p, 88, 0x36, 256, 0x10e, 0x361);
    PowersMultiply(g, p, 2, 0x4, 4, 0x10, 0x40);
    PowersMultiply(g, p, 6, 0x40, 8, 0x100, 0x90);
    PowersMultiply(g, p, 14, 0x90, 16, 0x240, 0x249);
    PowersMultiply(g, p, 30, 0x249, 64, 0x35d, 0x19b);
    PowersMultiply(g, p, 1, 0x2, 32, 0x136, 0x26c);
  }

  lemma Primes10()
    ensures Product([3, 11, 31]) == 1023
    ensures Prime(3) && Prime(11) && Prime(31)
  {
    PrimeByTrial(3, 1);
    PrimeByTrial(11, 3);
    PrimeByTrial(31, 5);
    assert Product([31]) == 31;
    assert Product([11, 31]) == 341;
  }

  lemma Returns10(g: Reg)
    requires g == Register(10)
    ensures Returns(g, 1023) && !Returns(g, 341) && !Returns(g, 93) && !Returns(g, 33)
  {
    hide *;
    var p := Modulus(0x200, 0x3ff, 0x9);
    Describes10();
    PowerOne(g, p);
    Powers10_0(g, p);
    Powers10_1(g, p);
    Closes(g, p);
    NotBackAfter(g, p, 341, 3, 0x361);
    NotBackAfter(g, p, 93, 1, 0x19b);
    NotBackAfter(g, p, 33, 0, 0x26c);
  }

  lemma Maximal10()
    ensures Maximal(Register(10))
  {
    hide *;
    var g := Register(10);
    Describes10();
    Returns10(g);
    Primes10();
    PeriodFromFactors(g, [3, 11, 31]);
  }

  // ---- Degree 11 ----

  lemma Low11()
    ensures TapPolynomial([0, 2]) == 0x5
  {
    hide Monomial;
    Monomials();
    TapPolynomialPlus([], 0, 0x0, 0x1);
    assert [] + [0] == [0];
    TapPolynomialPlus([0], 2, 0x1, 0x4);
    assert [0] + [2] == [0, 2];
  }

  lemma Word11()
    ensures Modulus(0x400, 0x7ff, 0x5).Ok() && Drop(0x7ff, 11) == 0 && Within(2, 0x7ff)
  {
  }

  lemma Describes11()
    ensures Describes(Modulus(0x400, 0x7ff, 0x5), Register(11))
    ensures Within(2, 0x7ff) && Register(11).Size() == 2048
  {
    hide Modulus.Ok, Drop, Within, Monomial, Pow2, TapPolynomial;
    Low11();
    Word11();
    Monomials();
    PowersOfTwo();
  }

  lemma Products11_0()
    ensures var p := Modulus(0x400, 0x7ff, 0x5);
      && Mul(p, 0x2, 0x2) == 0x4
      && Mul(p, 0x4, 0x4) == 0x10
      && Mul(p, 0x10, 0x10) == 0x100
      && Mul(p, 0x100, 0x100) == 0xa0
      && Mul(p, 0xa0, 0xa0) == 0x428
      && Mul(p, 0x428, 0x428) == 0x645
      && Mul(p, 0x645, 0x645) == 0x9e
      && Mul(p, 0x9e, 0x9e) == 0x17c
      && Mul(p, 0x17c, 0x17c) == 0x5fa
  {
  }

  lemma Products11_1()
    ensures var p := Modulus(0x400, 0x7ff, 0x5);
      && Mul(p, 0x5fa, 0x5fa) == 0x7c3
      && Mul(p, 0x7c3, 0x7c3) == 0x2
      && Mul(p, 0x2, 0x100) == 0x200
      && Mul(p, 0x200, 0xa0) == 0x88
      && Mul(p, 0x88, 0x645) == 0x142
      && Mul(p, 0x2, 0x4) == 0x8
      && Mul(p, 0x8, 0x10) == 0x80
      && Mul(p, 0x80, 0xa0) == 0x22
  {
  }

  lemma Powers11_0(g: Reg, p: Modulus)
    requires p == Modulus(0x400, 0x7ff, 0x5)
    requires PowerOfX(g, p, 1, 0x2)
    ensures PowerOfX(g, p, 2, 0x4)
    ensures PowerOfX(g, p, 4, 0x10)
    ensures PowerOfX(g, p, 8, 0x100)
    ensures PowerOfX(g, p, 16, 0xa0)
    ensures PowerOfX(g, p, 64, 0x645)
    ensures PowerOfX(g, p, 512, 0x5fa)
  {
    Products11_0();
    hide *;
    PowersMultiply(g, p, 1, 0x2, 1, 0x2, 0x4);
    PowersMultiply(g, p, 2, 0x4, 2, 0x4, 0x10);
    PowersMultiply(g, p, 4, 0x10, 4, 0x10, 0x100);
    PowersMultiply(g, p, 8, 0x100, 8, 0x100, 0xa0);
    PowersMultiply(g, p, 16, 0xa0, 16, 0xa0, 0x428);
    PowersMultiply(g, p, 32, 0x428, 32, 0x428, 0x645);
    PowersMultiply(g, p, 64, 0x645, 64, 0x645, 0x9e);
    PowersMultiply(g, p, 128, 0x9e, 128, 0x9e, 0x17c);
    PowersMultiply(g, p, 256, 0x17c, 256, 0x17c, 0x5fa);
  }

  lemma Powers11_1(g: Reg, p: Modulus)
    requires p == Modulus(0x400, 0x7ff, 0x5)
    requires PowerOfX(g, p, 1, 0x2) && PowerOfX(g, p, 2, 0x4) && PowerOfX(g, p, 4, 0x10) && PowerOfX(g, p, 8, 0x100)
             && PowerOfX(g, p, 16, 0xa0) && PowerOfX(g, p, 64, 0x645) && PowerOfX(g, p, 512, 0x5fa)
    ensures PowerOfX(g, p, 23, 0x22)
    ensures PowerOfX(g, p, 89, 0x142)
    ensures PowerOfX(g, p, 2048, 0x2)
  {
    Products11_1();
    hide *;
    PowersMultiply(g, p, 512, 0x5fa, 512, 0x5fa, 0x7c3);
    PowersMultiply(g, p, 1024, 0x7c3, 1024, 0x7c3, 0x2);
    PowersMultiply(g, p, 1, 0x2, 8, 0x100, 0x200);
    PowersMultiply(g, p, 9, 0x200, 16, 0xa0, 0x88);
    PowersMultiply(g, p, 25, 0x88, 64, 0x645, 0x142);
    PowersMultiply(g, p, 1, 0x2, 2, 0x4, 0x8);
    PowersMultiply(g, p, 3, 0x8, 4, 0x10, 0x80);
    PowersMultiply(g, p, 7, 0x80, 16, 0xa0, 0x22);
  }

  lemma Primes11()
    ensures Product([23, 89]) == 2047
    ensures Prime(23) && Prime(89)
  {
    PrimeByTrial(23, 4);
    PrimeByTrial(89, 9);
    assert Product([89]) == 89;
  }

  lemma Returns11(g: Reg)
    requires g == Register(11)
    ensures Returns(g, 2047) && !Returns(g, 89) && !Returns(g, 23)
  {
    hide *;
    var p := Modulus(0x400, 0x7ff, 0x5);
    Describes11();
    PowerOne(g, p);
    Powers11_0(g, p);
    Powers11_1(g, p);
    Closes(g, p);
    NotBackAfter(g, p, 89, 0, 0x142);
    NotBackAfter(g, p, 23, 0, 0x22);
  }

  lemma Maximal11()
    ensures Maximal(Register(11))
  {
    hide *;
    var g := Register(11);
    Describes11();
    Returns11(g);
    Primes11();
    PeriodFromFactors(g, [23, 89]);
  }

  // ---- Degree 12 ----

  lemma Low12()
    ensures TapPolynomial([0, 1, 4, 6]) == 0x53
  {
    hide Monomial;
    Monomials();
    TapPolynomialPlus([], 0, 0x0, 0x1);
    assert [] + [0] == [0];
    TapPolynomialPlus([0], 1, 0x1, 0x2);
    assert [0] + [1] == [0, 1];
    TapPolynomialPlus([0, 1], 4, 0x3, 0x10);
    assert [0, 1] + [4] == [0, 1, 4];
    TapPolynomialPlus([0, 1, 4], 6, 0x13, 0x40);
    assert [0, 1, 4] + [6] == [0, 1, 4, 6];
  }

  lemma Word12()
    ensures Modulus(0x800, 0xfff, 0x53).Ok() && Drop(0xfff, 12) == 0 && Within(2, 0xfff)
  {
  }

  lemma Describes12()
    ensures Describes(Modulus(0x800, 0xfff, 0x53), Register(12))
    ensures Within(2, 0xfff) && Register(12).Size() == 4096
  {
    hide Modulus.Ok, Drop, Within, Monomial, Pow2, TapPolynomial;
    Low12();
    Word12();
    Monomials();
    PowersOfTwo();
  }

  lemma Products12_0()
    ensures var p := Modulus(0x800, 0xfff, 0x53);
      && Mul(p, 0x2, 0x2) == 0x4
      && Mul(p, 0x4, 0x4) == 0x10
      && Mul(p, 0x10, 0x10) == 0x100
      && Mul(p, 0x100, 0x100) == 0x530
      && Mul(p, 0x530, 0x530) == 0x22f
      && Mul(p, 0x22f, 0x22f) == 0xc6
      && Mul(p, 0xc6, 0xc6) == 0x10b
      && Mul(p, 0x10b, 0x10b) == 0x575
      && Mul(p, 0x575, 0x575) == 0x26d
  {
  }

  lemma Products12_1()
    ensures var p := Modulus(0x800, 0xfff, 0x53);
      && Mul(p, 0x26d, 0x26d) == 0x91
      && Mul(p, 0x91, 0x91) == 0x4d
      && Mul(p, 0x4d, 0x4d) == 0x2
      && Mul(p, 0x2, 0x10) == 0x20
      && Mul(p, 0x20, 0x530) == 0x43e
      && Mul(p, 0x43e, 0xc6) == 0x754
      && Mul(p, 0x754, 0x575) == 0x1b2
      && Mul(p, 0x1b2, 0x91) == 0x46
      && Mul(p, 0x2, 0x4) == 0x8
  {
  }

  lemma Products12_2()
    ensures var p := Modulus(0x800, 0xfff, 0x53);
      && Mul(p, 0x8, 0x530) == 0x926
      && Mul(p, 0x926, 0x22f) == 0x31e
      && Mul(p, 0x31e, 0x575) == 0xd02
      && Mul(p, 0xd02, 0x26d) == 0xc8e
      && Mul(p, 0x10, 0x100) == 0x53
      && Mul(p, 0x53, 0xc6) == 0xc5f
      && Mul(p, 0xc5f, 0x26d) == 0xd1b
      && Mul(p, 0x53, 0x530) == 0x533
      && Mul(p, 0x533, 0x22f) == 0x206
  {
  }

  lemma Products12_3()
    ensures var p := Modulus(0x800, 0xfff, 0x53);
      && Mul(p, 0x206, 0x575) == 0x559
  {
  }

  lemma Powers12_0(g: Reg, p: Modulus)
    requires p == Modulus(0x800, 0xfff, 0x53)
    requires PowerOfX(g, p, 1, 0x2)
    ensures PowerOfX(g, p, 2, 0x4)
    ensures PowerOfX(g, p, 4, 0x10)
    ensures PowerOfX(g, p, 8, 0x100)
    ensures PowerOfX(g, p, 16, 0x530)
    ensures PowerOfX(g, p, 32, 0x22f)
    ensures PowerOfX(g, p, 64, 0xc6)
    ensures PowerOfX(g, p, 256, 0x575)
    ensures PowerOfX(g, p, 512, 0x26d)
  {
    Products12_0();
    hide *;
    PowersMultiply(g, p, 1, 0x2, 1, 0x2, 0x4);
    PowersMultiply(g, p, 2, 0x4, 2, 0x4, 0x10);
    PowersMultiply(g, p, 4, 0x10, 4, 0x10, 0x100);
    PowersMultiply(g, p, 8, 0x100, 8, 0x100, 0x530);
    PowersMultiply(g, p, 16, 0x530, 16, 0x530, 0x22f);
    PowersMultiply(g, p, 32, 0x22f, 32, 0x22f, 0xc6);
    PowersMultiply(g, p, 64, 0xc6, 64, 0xc6, 0x10b);
    PowersMultiply(g, p, 128, 0x10b, 128, 0x10b, 0x575);
    PowersMultiply(g, p, 256, 0x575, 256, 0x575, 0x26d);
  }

  lemma Powers12_1(g: Reg, p: Modulus)
    requires p == Modulus(0x800, 0xfff, 0x53)
    requires PowerOfX(g, p, 1, 0x2) && PowerOfX(g, p, 2, 0x4) && PowerOfX(g, p, 4, 0x10) && PowerOfX(g, p, 16, 0x530)
             && PowerOfX(g, p, 64, 0xc6) && PowerOfX(g, p, 256, 0x575) && PowerOfX(g, p, 512, 0x26d)
    ensures PowerOfX(g, p, 3, 0x8)
    ensures PowerOfX(g, p, 1365, 0x46)
    ensures PowerOfX(g, p, 4096, 0x2)
  {
    Products12_1();
    hide *;
    PowersMultiply(g, p, 512, 0x26d, 512, 0x26d, 0x91);
    PowersMultiply(g, p, 1024, 0x91, 1024, 0x91, 0x4d);
    PowersMultiply(g, p, 2048, 0x4d, 2048, 0x4d, 0x2);
    PowersMultiply(g, p, 1, 0x2, 4, 0x10, 0x20);
    PowersMultiply(g, p, 5, 0x20, 16, 0x530, 0x43e);
    PowersMultiply(g, p, 21, 0x43e, 64, 0xc6, 0x754);
    PowersMultiply(g, p, 85, 0x754, 256, 0x575, 0x1b2);
    PowersMultiply(g, p, 341, 0x1b2, 1024, 0x91, 0x46);
    PowersMultiply(g, p, 1, 0x2, 2, 0x4, 0x8);
  }

  lemma Powers12_2(g: Reg, p: Modulus)
    requires p == Modulus(0x800, 0xfff, 0x53)
    requires PowerOfX(g, p, 3, 0x8) && PowerOfX(g, p, 4, 0x10) && PowerOfX(g, p, 8, 0x100) && PowerOfX(g, p, 16, 0x530)
             && PowerOfX(g, p, 32, 0x22f) && PowerOfX(g, p, 64, 0xc6) && PowerOfX(g, p, 256, 0x575)
                && PowerOfX(g, p, 512, 0x26d)
    ensures PowerOfX(g, p, 60, 0x206)
    ensures PowerOfX(g, p, 588, 0xd1b)
    ensures PowerOfX(g, p, 819, 0xc8e)
  {
    Products12_2();
    hide *;
    PowersMultiply(g, p, 3, 0x8, 16, 0x530, 0x926);
    PowersMultiply(g, p, 19, 0x926, 32, 0x22f, 0x31e);
    PowersMultiply(g, p, 51, 0x31e, 256, 0x575, 0xd02);
    PowersMultiply(g, p, 307, 0xd02, 512, 0x26d, 0xc8e);
    PowersMultiply(g, p, 4, 0x10, 8, 0x100, 0x53);
    PowersMultiply(g, p, 12, 0x53, 64, 0xc6, 0xc5f);
    PowersMultiply(g, p, 76, 0xc5f, 512, 0x26d, 0xd1b);
    PowersMultiply(g, p, 12, 0x53, 16, 0x530, 0x533);
    PowersMultiply(g, p, 28, 0x533, 32, 0x22f, 0x206);
  }

  lemma Powers12_3(g: Reg, p: Modulus)
    requires p == Modulus(0x800, 0xfff, 0x53)
    requires PowerOfX(g, p, 60, 0x206) && PowerOfX(g, p, 256, 0x575)
    ensures PowerOfX(g, p, 316, 0x559)
  {
    Products12_3();
    hide *;
    PowersMultiply(g, p, 60, 0x206, 256, 0x575, 0x559);
  }

  lemma Primes12()
    ensures Product([3, 3, 5, 7, 13]) == 4095
    ensures Prime(3) && Prime(5) && Prime(7) && Prime(13)
  {
    PrimeByTrial(3, 1);
    PrimeByTrial(5, 2);
    PrimeByTrial(7, 2);
    PrimeByTrial(13, 3);
    assert Product([13]) == 13;
    assert Product([7, 13]) == 91;
    assert Product([5, 7, 13]) == 455;
    assert Product([3, 5, 7, 13]) == 1365;
  }

  lemma Returns12(g: Reg)
    requires g == Register(12)
    ensures Returns(g, 4095) && !Returns(g, 1365) && !Returns(g, 819) && !Returns(g, 585) && !Returns(g, 315)
  {
    hide *;
    var p := Modulus(0x800, 0xfff, 0x53);
    Describes12();
    PowerOne(g, p);
    Powers12_0(g, p);
    Powers12_1(g, p);
    Powers12_2(g, p);
    Powers12_3(g, p);
    Closes(g, p);
    NotBackAfter(g, p, 1365, 0, 0x46);
    NotBackAfter(g, p, 819, 0, 0xc8e);
    NotBackAfter(g, p, 585, 3, 0xd1b);
    NotBackAfter(g, p, 315, 1, 0x559);
  }

  lemma Maximal12()
    ensures Maximal(Register(12))
  {
    hide *;
    var g := Register(12);
    Describes12();
    Returns12(g);
    Primes12();
    PeriodFromFactors(g, [3, 3, 5, 7, 13]);
  }

  // ---- Degree 13 ----

  lemma Low13()
    ensures TapPolynomial([0, 1, 4, 5, 9, 11]) == 0xa33
  {
    hide Monomial;
    Monomials();
    TapPolynomialPlus([], 0, 0x0, 0x1);
    assert [] + [0] == [0];
    TapPolynomialPlus([0], 1, 0x1, 0x2);
    assert [0] + [1] == [0, 1];
    TapPolynomialPlus([0, 1], 4, 0x3, 0x10);
    assert [0, 1] + [4] == [0, 1, 4];
    TapPolynomialPlus([0, 1, 4], 5, 0x13, 0x20);
    assert [0, 1, 4] + [5] == [0, 1, 4, 5];
    TapPolynomialPlus([0, 1, 4, 5], 9, 0x33, 0x200);
    assert [0, 1, 4, 5] + [9] == [0, 1, 4, 5, 9];
    TapPolynomialPlus([0, 1, 4, 5, 9], 11, 0x233, 0x800);
    assert [0, 1, 4, 5, 9] + [11] == [0, 1, 4, 5, 9, 11];
  }

  lemma Word13()
    ensures Modulus(0x1000, 0x1fff, 0xa33).Ok() && Drop(0x1fff, 13) == 0 && Within(2, 0x1fff)
  {
  }

  lemma Describes13()
    ensures Describes(Modulus(0x1000, 0x1fff, 0xa33), Register(13))
    ensures Within(2, 0x1fff) && Register(13).Size() == 8192
  {
    hide Modulus.Ok, Drop, Within, Monomial, Pow2, TapPolynomial;
    Low13();
    Word13();
    Monomials();
    PowersOfTwo();
  }

  lemma Products13_0()
    ensures var p := Modulus(0x1000, 0x1fff, 0xa33);
      && Mul(p, 0x2, 0x2) == 0x4
      && Mul(p, 0x4, 0x4) == 0x10
      && Mul(p, 0x10, 0x10) == 0x100
      && Mul(p, 0x100, 0x100) == 0x5fe
      && Mul(p, 0x5fe, 0x5fe) == 0xf4a
      && Mul(p, 0xf4a, 0xf4a) == 0xdef
      && Mul(p, 0xdef, 0xdef) == 0xa60
      && Mul(p, 0xa60, 0xa60) == 0x7d3
      && Mul(p, 0x7d3, 0x7d3) == 0x1ce3
  {
  }

  lemma Products13_1()
    ensures var p := Modulus(0x1000, 0x1fff, 0xa33);
      && Mul(p, 0x1ce3, 0x1ce3) == 0x1f62
      && Mul(p, 0x1f62, 0x1f62) == 0x1903
      && Mul(p, 0x1903, 0x1903) == 0x117c
      && Mul(p, 0x117c, 0x117c) == 0x2
  {
  }

  lemma Powers13_0(g: Reg, p: Modulus)
    requires p == Modulus(0x1000, 0x1fff, 0xa33)
    requires PowerOfX(g, p, 1, 0x2)
    ensures PowerOfX(g, p, 512, 0x1ce3)
  {
    Products13_0();
    hide *;
    PowersMultiply(g, p, 1, 0x2, 1, 0x2, 0x4);
    PowersMultiply(g, p, 2, 0x4, 2, 0x4, 0x10);
    PowersMultiply(g, p, 4, 0x10, 4, 0x10, 0x100);
    PowersMultiply(g, p, 8, 0x100, 8, 0x100, 0x5fe);
    PowersMultiply(g, p, 16, 0x5fe, 16, 0x5fe, 0xf4a);
    PowersMultiply(g, p, 32, 0xf4a, 32, 0xf4a, 0xdef);
    PowersMultiply(g, p, 64, 0xdef, 64, 0xdef, 0xa60);
    PowersMultiply(g, p, 128, 0xa60, 128, 0xa60, 0x7d3);
    PowersMultiply(g, p, 256, 0x7d3, 256, 0x7d3, 0x1ce3);
  }

  lemma Powers13_1(g: Reg, p: Modulus)
    requires p == Modulus(0x1000, 0x1fff, 0xa33)
    requires PowerOfX(g, p, 512, 0x1ce3)
    ensures PowerOfX(g, p, 8192, 0x2)
  {
    Products13_1();
    hide *;
    PowersMultiply(g, p, 512, 0x1ce3, 512, 0x1ce3, 0x1f62);
    PowersMultiply(g, p, 1024, 0x1f62, 1024, 0x1f62, 0x1903);
    PowersMultiply(g, p, 2048, 0x1903, 2048, 0x1903, 0x117c);
    PowersMultiply(g, p, 4096, 0x117c, 4096, 0x117c, 0x2);
  }

  lemma Primes13()
    ensures Product([8191]) == 8191
    ensures Prime(8191)
  {
    NoDivisorFrom68();
    NoDivisorFrom46();
    NoDivisorFrom24();
    NoDivisorFrom2();
    PrimeByTrial(8191, 90);
  }

  lemma NoDivisorFrom68()
    ensures NoDivisorIn(8191, 68, 90)
  {
    assert NoDivisorIn(8191, 88, 90);
    assert NoDivisorIn(8191, 85, 90);
    assert NoDivisorIn(8191, 82, 90);
    assert NoDivisorIn(8191, 79, 90);
    assert NoDivisorIn(8191, 76, 90);
    assert NoDivisorIn(8191, 73, 90);
    assert NoDivisorIn(8191, 70, 90);
  }

  lemma NoDivisorFrom46()
    requires NoDivisorIn(8191, 68, 90)
    ensures NoDivisorIn(8191, 46, 90)
  {
    assert NoDivisorIn(8191, 65, 90);
    assert NoDivisorIn(8191, 62, 90);
    assert NoDivisorIn(8191, 59, 90);
    assert NoDivisorIn(8191, 56, 90);
    assert NoDivisorIn(8191, 53, 90);
    assert NoDivisorIn(8191, 50, 90);
    assert NoDivisorIn(8191, 47, 90);
  }

  lemma NoDivisorFrom24()
    requires NoDivisorIn(8191, 46, 90)
    ensures NoDivisorIn(8191, 24, 90)
  {
    assert NoDivisorIn(8191, 43, 90);
    assert NoDivisorIn(8191, 40, 90);
    assert NoDivisorIn(8191, 37, 90);
    assert NoDivisorIn(8191, 34, 90);
    assert NoDivisorIn(8191, 31, 90);
    assert NoDivisorIn(8191, 28, 90);
    assert NoDivisorIn(8191, 25, 90);
  }

  lemma NoDivisorFrom2()
    requires NoDivisorIn(8191, 24, 90)
    ensures NoDivisorIn(8191, 2, 90)
  {
    assert NoDivisorIn(8191, 21, 90);
    assert NoDivisorIn(8191, 18, 90);
    assert NoDivisorIn(8191, 15, 90);
    assert NoDivisorIn(8191, 12, 90);
    assert NoDivisorIn(8191, 9, 90);
    assert NoDivisorIn(8191, 6, 90);
    assert NoDivisorIn(8191, 3, 90);
  }

  lemma Returns13(g: Reg)
    requires g == Register(13)
    ensures Returns(g, 8191)
  {
    hide *;
    var p := Modulus(0x1000, 0x1fff, 0xa33);
    Describes13();
    PowerOne(g, p);
    Powers13_0(g, p);
    Powers13_1(g, p);
    Closes(g, p);
  }

  lemma Maximal13()
    ensures Maximal(Register(13))
  {
    hide *;
    var g := Register(13);
    Describes13();
    Returns13(g);
    NotBackAtOnce(g);
    Primes13();
    PeriodFromFactors(g, [8191]);
  }

  // ---- Degree 14 ----

  lemma Low14()
    ensures TapPolynomial([0, 1, 2, 12]) == 0x1007
  {
    hide Monomial;
    Monomials();
    TapPolynomialPlus([], 0, 0x0, 0x1);
    assert [] + [0] == [0];
    TapPolynomialPlus([0], 1, 0x1, 0x2);
    assert [0] + [1] == [0, 1];
    TapPolynomialPlus([0, 1], 2, 0x3, 0x4);
    assert [0, 1] + [2] == [0, 1, 2];
    TapPolynomialPlus([0, 1, 2], 12, 0x7, 0x1000);
    assert [0, 1, 2] + [12] == [0, 1, 2, 12];
  }

  lemma Word14()
    ensures Modulus(0x2000, 0x3fff, 0x1007).Ok() && Drop(0x3fff, 14) == 0 && Within(2, 0x3fff)
  {
  }

  lemma Describes14()
    ensures Describes(Modulus(0x2000, 0x3fff, 0x1007), Register(14))
    ensures Within(2, 0x3fff) && Register(14).Size() == 16384
  {
    hide Modulus.Ok, Drop, Within, Monomial, Pow2, TapPolynomial;
    Low14();
    Word14();
    Monomials();
    PowersOfTwo();
  }

  lemma Products14_0()
    ensures var p := Modulus(0x2000, 0x3fff, 0x1007);
      && Mul(p, 0x2, 0x2) == 0x4
      && Mul(p, 0x4, 0x4) == 0x10
      && Mul(p, 0x10, 0x10) == 0x100
      && Mul(p, 0x100, 0x100) == 0x101b
      && Mul(p, 0x101b, 0x101b) == 0xbee
      && Mul(p, 0xbee, 0xbee) == 0x1288
      && Mul(p, 0x1288, 0x1288) == 0xa87
      && Mul(p, 0xa87, 0xa87) == 0x16d2
      && Mul(p, 0x16d2, 0x16d2) == 0xa68
  {
  }

  lemma Products14_1()
    ensures var p := Modulus(0x2000, 0x3fff, 0x1007);
      && Mul(p, 0xa68, 0xa68) == 0x1280
      && Mul(p, 0x1280, 0x1280) == 0xac7
      && Mul(p, 0xac7, 0xac7) == 0x6d2
      && Mul(p, 0x6d2, 0x6d2) == 0xc3
      && Mul(p, 0xc3, 0xc3) == 0x2
      && Mul(p, 0x2, 0x10) == 0x20
      && Mul(p, 0x20, 0x101b) == 0x2356
      && Mul(p, 0x2356, 0x1288) == 0x3d31
      && Mul(p, 0x3d31, 0x16d2) == 0x327d
  {
  }

  lemma Products14_2()
    ensures var p := Modulus(0x2000, 0x3fff, 0x1007);
      && Mul(p, 0x327d, 0x1280) == 0xc9d
      && Mul(p, 0xc9d, 0x6d2) == 0x34fe
      && Mul(p, 0x4, 0x10) == 0x40
      && Mul(p, 0x40, 0x100) == 0x1007
      && Mul(p, 0x1007, 0x101b) == 0x2af8
      && Mul(p, 0x2af8, 0xbee) == 0x4a2
      && Mul(p, 0x4a2, 0x1288) == 0x16a0
      && Mul(p, 0x16a0, 0x16d2) == 0x1471
      && Mul(p, 0x2, 0xa87) == 0x150e
  {
  }

  lemma Powers14_0(g: Reg, p: Modulus)
    requires p == Modulus(0x2000, 0x3fff, 0x1007)
    requires PowerOfX(g, p, 1, 0x2)
    ensures PowerOfX(g, p, 2, 0x4)
    ensures PowerOfX(g, p, 4, 0x10)
    ensures PowerOfX(g, p, 8, 0x100)
    ensures PowerOfX(g, p, 16, 0x101b)
    ensures PowerOfX(g, p, 32, 0xbee)
    ensures PowerOfX(g, p, 64, 0x1288)
    ensures PowerOfX(g, p, 128, 0xa87)
    ensures PowerOfX(g, p, 256, 0x16d2)
    ensures PowerOfX(g, p, 512, 0xa68)
  {
    Products14_0();
    hide *;
    PowersMultiply(g, p, 1, 0x2, 1, 0x2, 0x4);
    PowersMultiply(g, p, 2, 0x4, 2, 0x4, 0x10);
    PowersMultiply(g, p, 4, 0x10, 4, 0x10, 0x100);
    PowersMultiply(g, p, 8, 0x100, 8, 0x100, 0x101b);
    PowersMultiply(g, p, 16, 0x101b, 16, 0x101b, 0xbee);
    PowersMultiply(g, p, 32, 0xbee, 32, 0xbee, 0x1288);
    PowersMultiply(g, p, 64, 0x1288, 64, 0x1288, 0xa87);
    PowersMultiply(g, p, 128, 0xa87, 128, 0xa87, 0x16d2);
    PowersMultiply(g, p, 256, 0x16d2, 256, 0x16d2, 0xa68);
  }

  lemma Powers14_1(g: Reg, p: Modulus)
    requires p == Modulus(0x2000, 0x3fff, 0x1007)
    requires PowerOfX(g, p, 1, 0x2) && PowerOfX(g, p, 4, 0x10) && PowerOfX(g, p, 16, 0x101b)
             && PowerOfX(g, p, 64, 0x1288) && PowerOfX(g, p, 256, 0x16d2) && PowerOfX(g, p, 512, 0xa68)
    ensures PowerOfX(g, p, 341, 0x327d)
    ensures PowerOfX(g, p, 1024, 0x1280)
    ensures PowerOfX(g, p, 4096, 0x6d2)
    ensures PowerOfX(g, p, 16384, 0x2)
  {
    Products14_1();
    hide *;
    PowersMultiply(g, p, 512, 0xa68, 512, 0xa68, 0x1280);
    PowersMultiply(g, p, 1024, 0x1280, 1024, 0x1280, 0xac7);
    PowersMultiply(g, p, 2048, 0xac7, 2048, 0xac7, 0x6d2);
    PowersMultiply(g, p, 4096, 0x6d2, 4096, 0x6d2, 0xc3);
    PowersMultiply(g, p, 8192, 0xc3, 8192, 0xc3, 0x2);
    PowersMultiply(g, p, 1, 0x2, 4, 0x10, 0x20);
    PowersMultiply(g, p, 5, 0x20, 16, 0x101b, 0x2356);
    PowersMultiply(g, p, 21, 0x2356, 64, 0x1288, 0x3d31);
    PowersMultiply(g, p, 85, 0x3d31, 256, 0x16d2, 0x327d);
  }

  lemma Powers14_2(g: Reg, p: Modulus)
    requires p == Modulus(0x2000, 0x3fff, 0x1007)
    requires PowerOfX(g, p, 1, 0x2) && PowerOfX(g, p, 2, 0x4) && PowerOfX(g, p, 4, 0x10) && PowerOfX(g, p, 8, 0x100)
             && PowerOfX(g, p, 16, 0x101b) && PowerOfX(g, p, 32, 0xbee) && PowerOfX(g, p, 64, 0x1288)
                && PowerOfX(g, p, 128, 0xa87) && PowerOfX(g, p, 256, 0x16d2) && PowerOfX(g, p, 341, 0x327d)
                   && PowerOfX(g, p, 1024, 0x1280) && PowerOfX(g, p, 4096, 0x6d2)
    ensures PowerOfX(g, p, 129, 0x150e)
    ensures PowerOfX(g, p, 382, 0x1471)
    ensures PowerOfX(g, p, 5461, 0x34fe)
  {
    Products14_2();
    hide *;
    PowersMultiply(g, p, 341, 0x327d, 1024, 0x1280, 0xc9d);
    PowersMultiply(g, p, 1365, 0xc9d, 4096, 0x6d2, 0x34fe);
    PowersMultiply(g, p, 2, 0x4, 4, 0x10, 0x40);
    PowersMultiply(g, p, 6, 0x40, 8, 0x100, 0x1007);
    PowersMultiply(g, p, 14, 0x1007, 16, 0x101b, 0x2af8);
    PowersMultiply(g, p, 30, 0x2af8, 32, 0xbee, 0x4a2);
    PowersMultiply(g, p, 62, 0x4a2, 64, 0x1288, 0x16a0);
    PowersMultiply(g, p, 126, 0x16a0, 256, 0x16d2, 0x1471);
    PowersMultiply(g, p, 1, 0x2, 128, 0xa87, 0x150e);
  }

  lemma Primes14()
    ensures Product([3, 43, 127]) == 16383
    ensures Prime(3) && Prime(43) && Prime(127)
  {
    PrimeByTrial(3, 1);
    PrimeByTrial(43, 6);
    PrimeByTrial(127, 11);
    assert Product([127]) == 127;
    assert Product([43, 127]) == 5461;
  }

  lemma Returns14(g: Reg)
    requires g == Register(14)
    ensures Returns(g, 16383) && !Returns(g, 5461) && !Returns(g, 381) && !Returns(g, 129)
  {
    hide *;
    var p := Modulus(0x2000, 0x3fff, 0x1007);
    Describes14();
    PowerOne(g, p);
    Powers14_0(g, p);
    Powers14_1(g, p);
    Powers14_2(g, p);
    Closes(g, p);
    NotBackAfter(g, p, 5461, 0, 0x34fe);
    NotBackAfter(g, p, 381, 1, 0x1471);
    NotBackAfter(g, p, 129, 0, 0x150e);
  }

  lemma Maximal14()
    ensures Maximal(Register(14))
  {
    hide *;
    var g := Register(14);
    Describes14();
    Returns14(g);
    Primes14();
    PeriodFromFactors(g, [3, 43, 127]);
  }

  /** The bits fed back in each register. */
  lemma FeedbackBits(n: nat, w: nat)
    requires 9 <= n <= 14
    ensures Feedback(Register(n).taps, w)
            == (match n
                case 9 => BitAt(w, 0) + BitAt(w, 4)
                case 10 => BitAt(w, 0) + BitAt(w, 3)
                case 11 => BitAt(w, 0) + BitAt(w, 2)
                case 12 => BitAt(w, 0) + BitAt(w, 1) + BitAt(w, 4) + BitAt(w, 6)
                case 13 => BitAt(w, 0) + BitAt(w, 1) + BitAt(w, 4) + BitAt(w, 5) + BitAt(w, 9) + BitAt(w, 11)
                case _ => BitAt(w, 0) + BitAt(w, 1) + BitAt(w, 2) + BitAt(w, 12)) % 2
  {
    hide Feedback, BitAt;
    var t := Register(n).taps;
    ParityOfTwo(t[..2], w);
    if n >= 12 {
      ParityOfTwoMore(t[..2], t[..4], w, BitAt(w, t[0]) + BitAt(w, t[1]));
    }
    if n == 13 {
      ParityOfTwoMore(t[..4], t[..6], w, BitAt(w, t[0]) + BitAt(w, t[1]) + BitAt(w, t[2]) + BitAt(w, t[3]));
    }
    assert t[..|t|] == t;
  }

  lemma ParityOfTwo(t: seq<nat>, w: nat)
    requires |t| == 2
    ensures Feedback(t, w) == (BitAt(w, t[0]) + BitAt(w, t[1])) % 2
  {
    hide BitAt;
    assert t[..1][..0] == [];
    assert Feedback([], w) == 0;
    assert Feedback(t[..1], w) == BitAt(w, t[0]);
  }

  lemma ParityOfTwoMore(t: seq<nat>, more: seq<nat>, w: nat, sum: nat)
    requires |more| == |t| + 2 && more[..|t|] == t && Feedback(t, w) == sum % 2
    ensures Feedback(more, w) == (sum + BitAt(w, more[|t|]) + BitAt(w, more[|t| + 1])) % 2
  {
    hide BitAt, Feedback;
    var n := |t|;
    assert more[..n + 1][..n] == t;
    FeedbackLast(more[..n + 1], w);
    FeedbackLast(more, w);
    Parity(sum, BitAt(w, more[n]));
    Parity(sum + BitAt(w, more[n]), BitAt(w, more[n + 1]));
  }

  lemma FeedbackLast(t: seq<nat>, w: nat)
    requires t != []
    ensures Feedback(t, w) == (Feedback(t[..|t| - 1], w) + BitAt(w, t[|t| - 1])) % 2
  {
  }

  lemma Parity(x: nat, y: nat)
    ensures (x % 2 + y) % 2 == (x + y) % 2
  {
  }
}
