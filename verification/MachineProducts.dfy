/** Products of concrete words, worked out on machine words. */
module MachineProducts {
  import opened Words
  import opened GaloisField

  // ---------- machine words as numbers ----------

  function Half(v: bv33): bv33 { v >> 1 }

  function Twice(v: bv33): bv33 { v << 1 }

  function Plus(u: bv33, v: bv33): bv33 { u ^ v }

  predicate LastBit(v: bv33) { v & 1 == 1 }

  predicate Meets(v: bv33, t: bv33) { v & t != 0 }

  /** The number that the low n bits write. */
  function Val(v: bv33, n: nat): (x: nat)
    ensures x < Pow2(n)
  {
    if n == 0 then 0 else (if LastBit(v) then 1 else 0) + 2 * Val(Half(v), n - 1)
  }

  lemma HalfPlus(u: bv33, v: bv33)
    ensures Half(Plus(u, v)) == Plus(Half(u), Half(v)) && LastBit(Plus(u, v)) == (LastBit(u) != LastBit(v))
  {}

  /** There is room for one more bit. */
  predicate Small(v: bv33) { v < 0x1_0000_0000 }

  lemma HalfTwice(v: bv33)
    requires Small(v)
    ensures !LastBit(Twice(v)) && Half(Twice(v)) == v
  {}

  lemma HalfMeets(v: bv33, t: bv33)
    requires !LastBit(t)
    ensures Meets(v, t) == Meets(Half(v), Half(t))
  {}

  lemma MeetsOne(v: bv33)
    ensures Meets(v, 1) == LastBit(v)
  {}

  lemma ValHalves(v: bv33, n: nat)
    requires n > 0
    ensures Val(v, n) % 2 == (if LastBit(v) then 1 else 0) && Val(v, n) / 2 == Val(Half(v), n - 1)
  {
    hide Half, LastBit;
  }

  lemma {:induction false} ValNone(v: bv33)
    ensures Val(v, 0) == 0
  {}

  lemma {:induction false} ValPlus(u: bv33, v: bv33, n: nat)
    ensures Val(Plus(u, v), n) == Xor(Val(u, n), Val(v, n))
    decreases n
  {
    hide Half, LastBit, Val, Plus;
    if n == 0 {
      ValNone(u); ValNone(v); ValNone(Plus(u, v));
      XorZero(0);
    } else {
      HalfPlus(u, v);
      ValHalves(u, n);
      ValHalves(v, n);
      ValHalves(Plus(u, v), n);
      ValPlus(Half(u), Half(v), n - 1);
      XorHalves(Val(u, n), Val(v, n));
    }
  }

  lemma ValTwice(v: bv33, n: nat)
    requires Small(v)
    ensures Val(Twice(v), n + 1) == 2 * Val(v, n)
  {
    hide Half, LastBit, Twice, Small;
    HalfTwice(v);
    ValHalves(Twice(v), n + 1);
  }

  lemma {:induction false} ValLow(v: bv33, n: nat, m: nat)
    requires n <= m
    ensures Low(Val(v, m), n) == Val(v, n)
    decreases n
  {
    hide Half, LastBit, Val;
    if n == 0 {
      ValNone(v);
    } else {
      ValHalves(v, m);
      ValHalves(v, n);
      ValLow(Half(v), n - 1, m - 1);
    }
  }

  lemma {:induction false} ValSmall(n: nat)
    requires n >= 2
    ensures Val(0, n) == 0 && Val(1, n) == 1 && Val(2, n) == 2
  {
    hide Half, LastBit, Val;
    SmallWords();
    ValHalves(0, n);
    ValHalves(1, n);
    ValHalves(2, n);
    if n == 2 {
      ValHalves(0, 1); ValHalves(1, 1); ValNone(0);
    } else {
      ValSmall(n - 1);
    }
  }

  lemma SmallWords()
    ensures Half(0) == 0 && Half(1) == 0 && Half(2) == 1 && !LastBit(0) && LastBit(1) && !LastBit(2)
  {}

  /** The word 1 << i. */
  predicate OneHot(t: bv33, i: nat) {
    if i == 0 then t == 1 else !LastBit(t) && OneHot(Half(t), i - 1)
  }

  lemma {:induction false} TestBit(v: bv33, t: bv33, i: nat, n: nat)
    requires OneHot(t, i) && i < n
    ensures Meets(v, t) == Bit(Val(v, n), i)
    decreases i
  {
    hide Half, LastBit, Val, Meets;
    ValHalves(v, n);
    if i == 0 {
      MeetsOne(v);
    } else {
      HalfMeets(v, t);
      TestBit(Half(v), Half(t), i - 1, n - 1);
    }
  }

  // ---------- the product, bit by bit ----------

  /** The polynomial, the top bit of a word, and the greatest word. */
  datatype Modulus = Modulus(poly: bv33, top: bv33, mask: bv33)

  predicate Fits(f: Field, m: Modulus) {
    f.Valid() && OneHot(m.top, f.w - 1) && Low(f.poly, f.w) == Val(m.poly, f.w)
  }

  function StepWord(m: Modulus, y: bv33): bv33 {
    if Meets(y, m.top) then Plus(Twice(y), m.poly) else Twice(y)
  }

  lemma {:induction false} StepWordIsStep(f: Field, m: Modulus, y: bv33)
    requires Fits(f, m) && Small(y)
    ensures Val(StepWord(m, y), f.w) == Step(f, Val(y, f.w))
  {
    hide Twice, Half, LastBit, Xor, Low, Val, Meets, Plus, OneHot, Small;
    var x := Val(y, f.w);
    TestBit(y, m.top, f.w - 1, f.w);
    ValTwice(y, f.w);
    ValLow(Twice(y), f.w, f.w + 1);
    ValPlus(Twice(y), m.poly, f.w);
    StepForm(f, x);
    XorZero(Low(2 * x, f.w));
  }

  /** What is left of the first factor, the second factor shifted, and the sum so far. */
  datatype State = State(x: bv33, y: bv33, sum: bv33)

  /** One bit of the product loop, and 2, 4, ..., 32 of them. */
  function Turn(m: Modulus, s: State): State {
    State(Half(s.x), StepWord(m, s.y), if LastBit(s.x) then Plus(s.sum, s.y) else s.sum)
  }

  function Turn2(m: Modulus, s: State): State { Turn(m, Turn(m, s)) }
  function Turn4(m: Modulus, s: State): State { Turn2(m, Turn2(m, s)) }
  function Turn8(m: Modulus, s: State): State { Turn4(m, Turn4(m, s)) }
  function Turn16(m: Modulus, s: State): State { Turn8(m, Turn8(m, s)) }
  function Turn32(m: Modulus, s: State): State { Turn16(m, Turn16(m, s)) }

  predicate Clean(m: Modulus, y: bv33) { y <= m.mask }

  /** The polynomial takes back the bit that leaves the word. */
  ghost predicate Clears(m: Modulus) {
    forall y: bv33 :: Clean(m, y) ==> Clean(m, StepWord(m, y)) && Small(y)
  }

  /** The sum so far plus the product that is left, k bits of the first factor to go. */
  ghost function Total(f: Field, s: State, k: nat): nat
    requires f.Valid()
  {
    Xor(Val(s.sum, f.w), Mul(f, Val(s.x, k), Val(s.y, f.w)))
  }

  /** One bit keeps the total. */
  lemma TurnKeeps(f: Field, m: Modulus, s: State, k: nat)
    requires Fits(f, m) && Clears(m) && Clean(m, s.y) && k > 0
    ensures Clean(m, Turn(m, s).y) && Total(f, Turn(m, s), k - 1) == Total(f, s, k)
  {
    hide Half, LastBit, Xor, Step, StepWord, Plus, Val, Small, Clean;
    StepWordIsStep(f, m, s.y);
    MulNext(f, s.x, k, Val(s.y, f.w));
    ValPlus(s.sum, s.y, f.w);
    XorAssoc(Val(s.sum, f.w), Val(s.y, f.w), Mul(f, Val(Half(s.x), k - 1), Val(StepWord(m, s.y), f.w)));
  }

  lemma Turn2Keeps(f: Field, m: Modulus, s: State, k: nat)
    requires Fits(f, m) && Clears(m) && Clean(m, s.y) && k >= 2
    ensures Clean(m, Turn2(m, s).y) && Total(f, Turn2(m, s), k - 2) == Total(f, s, k)
  {
    hide Turn, Total, Fits, Clears, Clean;
    TurnKeeps(f, m, s, k);
    TurnKeeps(f, m, Turn(m, s), k - 1);
  }

  lemma Turn4Keeps(f: Field, m: Modulus, s: State, k: nat)
    requires Fits(f, m) && Clears(m) && Clean(m, s.y) && k >= 4
    ensures Clean(m, Turn4(m, s).y) && Total(f, Turn4(m, s), k - 4) == Total(f, s, k)
  {
    hide Turn2, Total, Fits, Clears, Clean;
    Turn2Keeps(f, m, s, k);
    Turn2Keeps(f, m, Turn2(m, s), k - 2);
  }

  lemma Turn8Keeps(f: Field, m: Modulus, s: State, k: nat)
    requires Fits(f, m) && Clears(m) && Clean(m, s.y) && k >= 8
    ensures Clean(m, Turn8(m, s).y) && Total(f, Turn8(m, s), k - 8) == Total(f, s, k)
  {
    hide Turn4, Total, Fits, Clears, Clean;
    Turn4Keeps(f, m, s, k);
    Turn4Keeps(f, m, Turn4(m, s), k - 4);
  }

  lemma Turn16Keeps(f: Field, m: Modulus, s: State, k: nat)
    requires Fits(f, m) && Clears(m) && Clean(m, s.y) && k >= 16
    ensures Clean(m, Turn16(m, s).y) && Total(f, Turn16(m, s), k - 16) == Total(f, s, k)
  {
    hide Turn8, Total, Fits, Clears, Clean;
    Turn8Keeps(f, m, s, k);
    Turn8Keeps(f, m, Turn8(m, s), k - 8);
  }

  lemma Turn32Keeps(f: Field, m: Modulus, s: State, k: nat)
    requires Fits(f, m) && Clears(m) && Clean(m, s.y) && k >= 32
    ensures Clean(m, Turn32(m, s).y) && Total(f, Turn32(m, s), k - 32) == Total(f, s, k)
  {
    hide Turn16, Total, Fits, Clears, Clean;
    Turn16Keeps(f, m, s, k);
    Turn16Keeps(f, m, Turn16(m, s), k - 16);
  }

  lemma MulNext(f: Field, x: bv33, k: nat, y: nat)
    requires f.Valid() && k > 0
    ensures Mul(f, Val(x, k), y) ==
      if LastBit(x) then Xor(y, Mul(f, Val(Half(x), k - 1), Step(f, y))) else Mul(f, Val(Half(x), k - 1), Step(f, y))
  {
    hide Half, LastBit, Xor, Step, Val;
    ValHalves(x, k);
    XorZero(Mul(f, Val(Half(x), k - 1), Step(f, y)));
    MulZero(f, y);
    MulZero(f, Step(f, y));
  }
}
