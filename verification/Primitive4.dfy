/** The reduction polynomial that galois.c uses for w = 4 is primitive. */
module Primitive4 {
  import opened Words
  import opened GaloisField
  import opened PrimitiveElement
  import opened MachineProducts
  import opened FullOrder
  import opened PowerProducts

  const M := Modulus(0x13, 0x8, 0xf)

  lemma ModulusClears()
    ensures Clears(M)
  {}

  // ---------- products of powers of x ----------

  lemma Product1()
    ensures Turn4(M, State(0x2, 0x2, 0)).sum == 0x4
  {}

  lemma Product2()
    ensures Turn4(M, State(0x4, 0x4, 0)).sum == 0x3
  {}

  lemma Product3()
    ensures Turn4(M, State(0x2, 0x3, 0)).sum == 0x6
  {}

  lemma Product4()
    ensures Turn4(M, State(0x6, 0x6, 0)).sum == 0x7
  {}

  lemma Product5()
    ensures Turn4(M, State(0x6, 0x7, 0)).sum == 0x1
  {}

  // ---------- the powers that decide the order ----------

  lemma TestAt5(f: Field)
    requires Suits(f, M) && f.w == 4 && IsPower(f, 1, 0x2)
    ensures Power(f, 3) != 1 && IsPower(f, 5, 0x6)
  {
    hide Turn4, Power, Val, IsPower, Fits, Clears, OneHot, Meets;
    FirstPowers(f);
    Product1(); Multiply4(f, M, 1, 1, 0x2, 0x2, 0x4);
    Product2(); Multiply4(f, M, 2, 2, 0x4, 0x4, 0x3);
    Product3(); Multiply4(f, M, 1, 4, 0x2, 0x3, 0x6);
    Distinct5();
    Differ(f, 4, 1, 0x3, 0x2, 0x1, 0);
    NotOne(f, 3, 1);
  }

  lemma Distinct5()
    ensures OneHot(0x1, 0) && Meets(0x3, 0x1) != Meets(0x2, 0x1)
  {}

  lemma TestAt3(f: Field)
    requires Suits(f, M) && f.w == 4 && IsPower(f, 5, 0x6)
    ensures Power(f, 5) != 1 && IsPower(f, 15, 0x1)
  {
    hide Turn4, Power, Val, IsPower, Fits, Clears, OneHot, Meets;
    FirstPowers(f);
    Product4(); Multiply4(f, M, 5, 5, 0x6, 0x6, 0x7);
    Product5(); Multiply4(f, M, 5, 10, 0x6, 0x7, 0x1);
    Distinct3();
    Differ(f, 10, 5, 0x7, 0x6, 0x1, 0);
    NotOne(f, 5, 5);
  }

  lemma Distinct3()
    ensures OneHot(0x1, 0) && Meets(0x7, 0x1) != Meets(0x6, 0x1)
  {}
}
