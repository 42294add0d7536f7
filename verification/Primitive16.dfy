/** The reduction polynomial that galois.c uses for w = 16 is primitive. */
module Primitive16 {
  import opened Words
  import opened GaloisField
  import opened PrimitiveElement
  import opened MachineProducts
  import opened FullOrder
  import opened PowerProducts

  const M := Modulus(0x1_100b, 0x8000, 0xffff)

  lemma ModulusClears()
    ensures Clears(M)
  {}

  // ---------- products of powers of x ----------

  lemma Product1()
    ensures Turn16(M, State(0x2, 0x2, 0)).sum == 0x4
  {}

  lemma Product2()
    ensures Turn16(M, State(0x4, 0x4, 0)).sum == 0x10
  {}

  lemma Product3()
    ensures Turn16(M, State(0x10, 0x10, 0)).sum == 0x100
  {}

  lemma Product4()
    ensures Turn16(M, State(0x100, 0x100, 0)).sum == 0x100b
  {}

  lemma Product5()
    ensures Turn16(M, State(0x100b, 0x100b, 0)).sum == 0x1bfe
  {}

  lemma Product6()
    ensures Turn16(M, State(0x1bfe, 0x1bfe, 0)).sum == 0x5c24
  {}

  lemma Product7()
    ensures Turn16(M, State(0x5c24, 0x5c24, 0)).sum == 0xe647
  {}

  lemma Product8()
    ensures Turn16(M, State(0xe647, 0xe647, 0)).sum == 0xb2f
  {}

  lemma Product9()
    ensures Turn16(M, State(0x2, 0xb2f, 0)).sum == 0x165e
  {}

  lemma Product10()
    ensures Turn16(M, State(0x165e, 0x165e, 0)).sum == 0x5a78
  {}

  lemma Product11()
    ensures Turn16(M, State(0x5a78, 0x5a78, 0)).sum == 0xa780
  {}

  lemma Product12()
    ensures Turn16(M, State(0xa780, 0xa780, 0)).sum == 0xe08a
  {}

  lemma Product13()
    ensures Turn16(M, State(0xe08a, 0xe08a, 0)).sum == 0xbe9
  {}

  lemma Product14()
    ensures Turn16(M, State(0x165e, 0xbe9, 0)).sum == 0x1a
  {}

  lemma Product15()
    ensures Turn16(M, State(0x1a, 0x1a, 0)).sum == 0x144
  {}

  lemma Product16()
    ensures Turn16(M, State(0x144, 0x144, 0)).sum == 0x1b
  {}

  lemma Product17()
    ensures Turn16(M, State(0x1a, 0x1b, 0)).sum == 0x15e
  {}

  lemma Product18()
    ensures Turn16(M, State(0x15e, 0x15e, 0)).sum == 0x15f
  {}

  lemma Product19()
    ensures Turn16(M, State(0x15e, 0x15f, 0)).sum == 0x1
  {}

  // ---------- the powers that decide the order ----------

  lemma TestAt257(f: Field)
    requires Suits(f, M) && f.w == 16 && IsPower(f, 1, 0x2)
    ensures Power(f, 255) != 1 && IsPower(f, 257, 0x165e)
  {
    hide Turn16, Power, Val, IsPower, Fits, Clears, OneHot, Meets;
    FirstPowers(f);
    Product1(); Multiply16(f, M, 1, 1, 0x2, 0x2, 0x4);
    Product2(); Multiply16(f, M, 2, 2, 0x4, 0x4, 0x10);
    Product3(); Multiply16(f, M, 4, 4, 0x10, 0x10, 0x100);
    Product4(); Multiply16(f, M, 8, 8, 0x100, 0x100, 0x100b);
    Product5(); Multiply16(f, M, 16, 16, 0x100b, 0x100b, 0x1bfe);
    Product6(); Multiply16(f, M, 32, 32, 0x1bfe, 0x1bfe, 0x5c24);
    Product7(); Multiply16(f, M, 64, 64, 0x5c24, 0x5c24, 0xe647);
    Product8(); Multiply16(f, M, 128, 128, 0xe647, 0xe647, 0xb2f);
    Product9(); Multiply16(f, M, 1, 256, 0x2, 0xb2f, 0x165e);
    Distinct257();
    Differ(f, 256, 1, 0xb2f, 0x2, 0x1, 0);
    NotOne(f, 255, 1);
  }

  lemma Distinct257()
    ensures OneHot(0x1, 0) && Meets(0xb2f, 0x1) != Meets(0x2, 0x1)
  {}

  lemma TestAt17(f: Field)
    requires Suits(f, M) && f.w == 16 && IsPower(f, 257, 0x165e)
    ensures Power(f, 3855) != 1 && IsPower(f, 4369, 0x1a)
  {
    hide Turn16, Power, Val, IsPower, Fits, Clears, OneHot, Meets;
    FirstPowers(f);
    Product10(); Multiply16(f, M, 257, 257, 0x165e, 0x165e, 0x5a78);
    Product11(); Multiply16(f, M, 514, 514, 0x5a78, 0x5a78, 0xa780);
    Product12(); Multiply16(f, M, 1028, 1028, 0xa780, 0xa780, 0xe08a);
    Product13(); Multiply16(f, M, 2056, 2056, 0xe08a, 0xe08a, 0xbe9);
    Product14(); Multiply16(f, M, 257, 4112, 0x165e, 0xbe9, 0x1a);
    Distinct17();
    Differ(f, 4112, 257, 0xbe9, 0x165e, 0x1, 0);
    NotOne(f, 3855, 257);
  }

  lemma Distinct17()
    ensures OneHot(0x1, 0) && Meets(0xbe9, 0x1) != Meets(0x165e, 0x1)
  {}

  lemma TestAt5(f: Field)
    requires Suits(f, M) && f.w == 16 && IsPower(f, 4369, 0x1a)
    ensures Power(f, 13107) != 1 && IsPower(f, 21845, 0x15e)
  {
    hide Turn16, Power, Val, IsPower, Fits, Clears, OneHot, Meets;
    FirstPowers(f);
    Product15(); Multiply16(f, M, 4369, 4369, 0x1a, 0x1a, 0x144);
    Product16(); Multiply16(f, M, 8738, 8738, 0x144, 0x144, 0x1b);
    Product17(); Multiply16(f, M, 4369, 17476, 0x1a, 0x1b, 0x15e);
    Distinct5();
    Differ(f, 17476, 4369, 0x1b, 0x1a, 0x1, 0);
    NotOne(f, 13107, 4369);
  }

  lemma Distinct5()
    ensures OneHot(0x1, 0) && Meets(0x1b, 0x1) != Meets(0x1a, 0x1)
  {}

  lemma TestAt3(f: Field)
    requires Suits(f, M) && f.w == 16 && IsPower(f, 21845, 0x15e)
    ensures Power(f, 21845) != 1 && IsPower(f, 65535, 0x1)
  {
    hide Turn16, Power, Val, IsPower, Fits, Clears, OneHot, Meets;
    FirstPowers(f);
    Product18(); Multiply16(f, M, 21845, 21845, 0x15e, 0x15e, 0x15f);
    Product19(); Multiply16(f, M, 21845, 43690, 0x15e, 0x15f, 0x1);
    Distinct3();
    Differ(f, 43690, 21845, 0x15f, 0x15e, 0x1, 0);
    NotOne(f, 21845, 21845);
  }

  lemma Distinct3()
    ensures OneHot(0x1, 0) && Meets(0x15f, 0x1) != Meets(0x15e, 0x1)
  {}
}
