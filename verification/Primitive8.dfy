/** The reduction polynomial that galois.c uses for w = 8 is primitive. */
module Primitive8 {
  import opened Words
  import opened GaloisField
  import opened PrimitiveElement
  import opened MachineProducts
  import opened FullOrder
  import opened PowerProducts

  const M := Modulus(0x11d, 0x80, 0xff)

  lemma ModulusClears()
    ensures Clears(M)
  {}

  // ---------- products of powers of x ----------

  lemma Product1()
    ensures Turn8(M, State(0x2, 0x2, 0)).sum == 0x4
  {}

  lemma Product2()
    ensures Turn8(M, State(0x4, 0x4, 0)).sum == 0x10
  {}

  lemma Product3()
    ensures Turn8(M, State(0x10, 0x10, 0)).sum == 0x1d
  {}

  lemma Product4()
    ensures Turn8(M, State(0x1d, 0x1d, 0)).sum == 0x4c
  {}

  lemma Product5()
    ensures Turn8(M, State(0x2, 0x4c, 0)).sum == 0x98
  {}

  lemma Product6()
    ensures Turn8(M, State(0x98, 0x98, 0)).sum == 0x4e
  {}

  lemma Product7()
    ensures Turn8(M, State(0x4e, 0x4e, 0)).sum == 0x99
  {}

  lemma Product8()
    ensures Turn8(M, State(0x98, 0x99, 0)).sum == 0xd6
  {}

  lemma Product9()
    ensures Turn8(M, State(0xd6, 0xd6, 0)).sum == 0xd7
  {}

  lemma Product10()
    ensures Turn8(M, State(0xd6, 0xd7, 0)).sum == 0x1
  {}

  // ---------- the powers that decide the order ----------

  lemma TestAt17(f: Field)
    requires Suits(f, M) && f.w == 8 && IsPower(f, 1, 0x2)
    ensures Power(f, 15) != 1 && IsPower(f, 17, 0x98)
  {
    hide Turn8, Power, Val, IsPower, Fits, Clears, OneHot, Meets;
    FirstPowers(f);
    Product1(); Multiply8(f, M, 1, 1, 0x2, 0x2, 0x4);
    Product2(); Multiply8(f, M, 2, 2, 0x4, 0x4, 0x10);
    Product3(); Multiply8(f, M, 4, 4, 0x10, 0x10, 0x1d);
    Product4(); Multiply8(f, M, 8, 8, 0x1d, 0x1d, 0x4c);
    Product5(); Multiply8(f, M, 1, 16, 0x2, 0x4c, 0x98);
    Distinct17();
    Differ(f, 16, 1, 0x4c, 0x2, 0x2, 1);
    NotOne(f, 15, 1);
  }

  lemma Distinct17()
    ensures OneHot(0x2, 1) && Meets(0x4c, 0x2) != Meets(0x2, 0x2)
  {}

  lemma TestAt5(f: Field)
    requires Suits(f, M) && f.w == 8 && IsPower(f, 17, 0x98)
    ensures Power(f, 51) != 1 && IsPower(f, 85, 0xd6)
  {
    hide Turn8, Power, Val, IsPower, Fits, Clears, OneHot, Meets;
    FirstPowers(f);
    Product6(); Multiply8(f, M, 17, 17, 0x98, 0x98, 0x4e);
    Product7(); Multiply8(f, M, 34, 34, 0x4e, 0x4e, 0x99);
    Product8(); Multiply8(f, M, 17, 68, 0x98, 0x99, 0xd6);
    Distinct5();
    Differ(f, 68, 17, 0x99, 0x98, 0x1, 0);
    NotOne(f, 51, 17);
  }

  lemma Distinct5()
    ensures OneHot(0x1, 0) && Meets(0x99, 0x1) != Meets(0x98, 0x1)
  {}

  lemma TestAt3(f: Field)
    requires Suits(f, M) && f.w == 8 && IsPower(f, 85, 0xd6)
    ensures Power(f, 85) != 1 && IsPower(f, 255, 0x1)
  {
    hide Turn8, Power, Val, IsPower, Fits, Clears, OneHot, Meets;
    FirstPowers(f);
    Product9(); Multiply8(f, M, 85, 85, 0xd6, 0xd6, 0xd7);
    Product10(); Multiply8(f, M, 85, 170, 0xd6, 0xd7, 0x1);
    Distinct3();
    Differ(f, 170, 85, 0xd7, 0xd6, 0x1, 0);
    NotOne(f, 85, 85);
  }

  lemma Distinct3()
    ensures OneHot(0x1, 0) && Meets(0xd7, 0x1) != Meets(0xd6, 0x1)
  {}
}
