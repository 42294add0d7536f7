/** Powers of x multiplied on machine words. */
module PowerProducts {
  import opened Words
  import opened GaloisField
  import opened PrimitiveElement
  import opened MachineProducts
  import opened FullOrder

  /** The machine word of the e-th power of x. */
  ghost predicate IsPower(f: Field, e: nat, v: bv33)
    requires f.Valid()
  {
    Power(f, e) == Val(v, f.w)
  }

  /** The modulus belongs to the field. */
  ghost predicate Suits(f: Field, m: Modulus) {
    Fits(f, m) && Clears(m) && f.w >= 2
  }

  lemma {:induction false} TotalAtStart(f: Field, a: bv33, b: bv33)
    requires f.Valid() && f.w >= 2
    ensures Total(f, State(a, b, 0), f.w) == Mul(f, Val(a, f.w), Val(b, f.w))
  {
    hide Mul, Xor, Val;
    ValSmall(f.w);
    XorZero(Mul(f, Val(a, f.w), Val(b, f.w)));
  }

  lemma TotalAtEnd(f: Field, s: State)
    requires f.Valid()
    ensures Total(f, s, 0) == Val(s.sum, f.w)
  {
    hide Mul, Xor, Val;
    ValNone(s.x);
    MulZero(f, Val(s.y, f.w));
    XorZero(Val(s.sum, f.w));
  }

  lemma Finish(f: Field, i: nat, j: nat, a: bv33, b: bv33, s: State)
    requires f.Valid() && f.w >= 2 && IsPower(f, i, a) && IsPower(f, j, b)
    requires Total(f, s, 0) == Total(f, State(a, b, 0), f.w)
    ensures IsPower(f, i + j, s.sum)
  {
    hide Mul, Val, Total, Power;
    TotalAtStart(f, a, b);
    TotalAtEnd(f, s);
    PowerMul(f, i, j);
  }

  lemma Multiply4(f: Field, m: Modulus, i: nat, j: nat, a: bv33, b: bv33, c: bv33)
    requires Suits(f, m) && f.w == 4 && Clean(m, b) && IsPower(f, i, a) && IsPower(f, j, b)
    requires Turn4(m, State(a, b, 0)).sum == c
    ensures IsPower(f, i + j, c)
  {
    hide Turn4, Total, Fits, Clears, Clean, IsPower;
    Turn4Keeps(f, m, State(a, b, 0), 4);
    Finish(f, i, j, a, b, Turn4(m, State(a, b, 0)));
  }

  lemma Multiply8(f: Field, m: Modulus, i: nat, j: nat, a: bv33, b: bv33, c: bv33)
    requires Suits(f, m) && f.w == 8 && Clean(m, b) && IsPower(f, i, a) && IsPower(f, j, b)
    requires Turn8(m, State(a, b, 0)).sum == c
    ensures IsPower(f, i + j, c)
  {
    hide Turn8, Total, Fits, Clears, Clean, IsPower;
    Turn8Keeps(f, m, State(a, b, 0), 8);
    Finish(f, i, j, a, b, Turn8(m, State(a, b, 0)));
  }

  lemma Multiply16(f: Field, m: Modulus, i: nat, j: nat, a: bv33, b: bv33, c: bv33)
    requires Suits(f, m) && f.w == 16 && Clean(m, b) && IsPower(f, i, a) && IsPower(f, j, b)
    requires Turn16(m, State(a, b, 0)).sum == c
    ensures IsPower(f, i + j, c)
  {
    hide Turn16, Total, Fits, Clears, Clean, IsPower;
    Turn16Keeps(f, m, State(a, b, 0), 16);
    Finish(f, i, j, a, b, Turn16(m, State(a, b, 0)));
  }

  lemma Multiply32(f: Field, m: Modulus, i: nat, j: nat, a: bv33, b: bv33, c: bv33)
    requires Suits(f, m) && f.w == 32 && Clean(m, b) && IsPower(f, i, a) && IsPower(f, j, b)
    requires Turn32(m, State(a, b, 0)).sum == c
    ensures IsPower(f, i + j, c)
  {
    hide Turn32, Total, Fits, Clears, Clean, IsPower;
    Turn32Keeps(f, m, State(a, b, 0), 32);
    Finish(f, i, j, a, b, Turn32(m, State(a, b, 0)));
  }

  lemma FirstPowers(f: Field)
    requires f.Valid() && f.w >= 2
    ensures IsPower(f, 0, 1) && IsPower(f, 1, 2)
  {
    hide Val, Xor;
    ValSmall(f.w);
    PowerNone(f);
    PowerNext(f, 0);
    StepOne(f);
  }

  lemma StepOne(f: Field)
    requires f.Valid() && f.w >= 2
    ensures Step(f, 1) == 2
  {
    BitPow2(f.w - 1, 0);
  }

  /** Different machine words at a bit of the word are different powers. */
  lemma {:induction false} Differ(f: Field, i: nat, j: nat, a: bv33, b: bv33, t: bv33, l: nat)
    requires f.Valid() && IsPower(f, i, a) && IsPower(f, j, b)
    requires OneHot(t, l) && l < f.w && Meets(a, t) != Meets(b, t)
    ensures Power(f, i) != Power(f, j)
  {
    hide Val, Power, OneHot, Meets;
    TestBit(a, t, l, f.w);
    TestBit(b, t, l, f.w);
  }

  /** If x to the e + g is not x to the g, then x to the e is not 1. */
  lemma NotOne(f: Field, e: nat, g: nat)
    requires f.Valid() && Power(f, e + g) != Power(f, g)
    ensures Power(f, e) != 1
  {
    hide Power;
    if Power(f, e) == 1 { PowerOne(f, e, g); }
  }
}
