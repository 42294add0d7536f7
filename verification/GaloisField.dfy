/** Arithmetic in GF(2)[x] modulo a reduction polynomial: what galois_shift_multiply computes. */
module GaloisField {
  import opened Words
  import opened Counting

  /** A word size w and the entry prim_poly[w]. Only the low w bits of poly matter. */
  datatype Field = Field(w: nat, poly: nat) {
    predicate Valid() { w >= 1 }
    predicate Has(x: nat) { x < Pow2(w) }
  }

  /** One pass of the doubling loop: multiplication by the polynomial x. */
  function Step(f: Field, y: nat): nat
    requires f.Valid()
  {
    if Bit(y, f.w - 1) then Low(Xor(2 * y, f.poly), f.w) else 2 * y
  }

  /** y after i passes. */
  function Shifted(f: Field, y: nat, i: nat): nat
    requires f.Valid()
  {
    if i == 0 then y else Step(f, Shifted(f, y, i - 1))
  }

  /** The product as a sum of shifted copies of y, one for each bit of x, lowest bit first. */
  function Mul(f: Field, x: nat, y: nat): nat
    requires f.Valid()
  {
    if x == 0 then 0 else Xor(if x % 2 == 1 then y else 0, Mul(f, x / 2, Step(f, y)))
  }

  // ---------- the doubling step ----------

  /** What the step folds back when the top bit leaves the word. */
  function Fold(f: Field, y: nat): nat
    requires f.Valid()
  {
    if Bit(y, f.w - 1) then Low(f.poly, f.w) else 0
  }

  lemma {:induction false} FoldXor(f: Field, x: nat, y: nat)
    requires f.Valid()
    ensures Fold(f, Xor(x, y)) == Xor(Fold(f, x), Fold(f, y))
  {
    BitXor(x, y, f.w - 1);
    XorGuarded(Low(f.poly, f.w), Bit(x, f.w - 1), Bit(y, f.w - 1));
  }

  /** Both branches of the step at once. */
  lemma {:induction false} StepForm(f: Field, y: nat)
    requires f.Valid() && f.Has(y)
    ensures Step(f, y) == Xor(Low(2 * y, f.w), Fold(f, y))
    ensures f.Has(Step(f, y))
  {
    TopBit(y, f.w - 1);
    LowXor(2 * y, f.poly, f.w);
    XorZero(Low(2 * y, f.w));
    if !Bit(y, f.w - 1) { LowSmall(2 * y, f.w); }
  }

  lemma {:induction false} StepXor(f: Field, x: nat, y: nat)
    requires f.Valid() && f.Has(x) && f.Has(y)
    ensures f.Has(Xor(x, y)) && Step(f, Xor(x, y)) == Xor(Step(f, x), Step(f, y))
  {
    XorBound(x, y, f.w);
    calc {
      Step(f, Xor(x, y));
    ==  { StepForm(f, Xor(x, y)); FoldXor(f, x, y); }
      Xor(Low(2 * Xor(x, y), f.w), Xor(Fold(f, x), Fold(f, y)));
    ==  { Double(x, y); LowXor(2 * x, 2 * y, f.w); }
      Xor(Xor(Low(2 * x, f.w), Low(2 * y, f.w)), Xor(Fold(f, x), Fold(f, y)));
    ==  { XorSwap(Low(2 * x, f.w), Low(2 * y, f.w), Fold(f, x), Fold(f, y)); }
      Xor(Xor(Low(2 * x, f.w), Fold(f, x)), Xor(Low(2 * y, f.w), Fold(f, y)));
    ==  { StepForm(f, x); StepForm(f, y); }
      Xor(Step(f, x), Step(f, y));
    }
  }

  lemma {:induction false} Double(x: nat, y: nat)
    ensures Xor(2 * x, 2 * y) == 2 * Xor(x, y)
  {
    XorHalves(2 * x, 2 * y);
  }

  lemma StepZero(f: Field)
    requires f.Valid()
    ensures Step(f, 0) == 0
  {
    BitZero(f.w - 1);
  }

  lemma {:induction false} ShiftedHas(f: Field, y: nat, i: nat)
    requires f.Valid() && f.Has(y)
    ensures f.Has(Shifted(f, y, i))
  {
    if i > 0 {
      ShiftedHas(f, y, i - 1);
      StepForm(f, Shifted(f, y, i - 1));
    }
  }

  lemma {:induction false} ShiftedAdd(f: Field, y: nat, i: nat, j: nat)
    requires f.Valid()
    ensures Shifted(f, Shifted(f, y, i), j) == Shifted(f, y, i + j)
  {
    if j > 0 { ShiftedAdd(f, y, i, j - 1); }
  }

  // ---------- ring laws ----------

  lemma {:induction false} MulHas(f: Field, x: nat, y: nat)
    requires f.Valid() && f.Has(y)
    ensures f.Has(Mul(f, x, y))
  {
    if x > 0 {
      StepForm(f, y);
      MulHas(f, x / 2, Step(f, y));
      XorBound(if x % 2 == 1 then y else 0, Mul(f, x / 2, Step(f, y)), f.w);
    }
  }

  lemma {:induction false} MulZero(f: Field, x: nat)
    requires f.Valid()
    ensures Mul(f, x, 0) == 0 && Mul(f, 0, x) == 0
  {
    if x > 0 { StepZero(f); MulZero(f, x / 2); }
  }

  /** Distributivity over the left operand. */
  lemma {:induction false} MulXorLeft(f: Field, a: nat, b: nat, y: nat)
    requires f.Valid()
    ensures Mul(f, Xor(a, b), y) == Xor(Mul(f, a, y), Mul(f, b, y))
    decreases a + b
  {
    if a == 0 || b == 0 {
      XorZero(a); XorZero(b); XorZero(Mul(f, a, y)); XorZero(Mul(f, b, y));
    } else {
      XorHalves(a, b);
      MulXorLeft(f, a / 2, b / 2, Step(f, y));
      var s := Step(f, y);
      var ya, yb := if a % 2 == 1 then y else 0, if b % 2 == 1 then y else 0;
      XorSwap(ya, Mul(f, a / 2, s), yb, Mul(f, b / 2, s));
      XorZero(y);
      if Xor(a, b) == 0 { XorZeroIsEqual(a, b); }
    }
  }

  /** Distributivity over the right operand. */
  lemma {:induction false} MulXorRight(f: Field, x: nat, a: nat, b: nat)
    requires f.Valid() && f.Has(a) && f.Has(b)
    ensures Mul(f, x, Xor(a, b)) == Xor(Mul(f, x, a), Mul(f, x, b))
  {
    if x > 0 {
      StepXor(f, a, b);
      StepForm(f, a);
      StepForm(f, b);
      MulXorRight(f, x / 2, Step(f, a), Step(f, b));
      var xa, xb := if x % 2 == 1 then a else 0, if x % 2 == 1 then b else 0;
      XorSwap(xa, Mul(f, x / 2, Step(f, a)), xb, Mul(f, x / 2, Step(f, b)));
    }
  }

  lemma {:induction false} MulStep(f: Field, x: nat, y: nat)
    requires f.Valid() && f.Has(y)
    ensures Mul(f, x, Step(f, y)) == Step(f, Mul(f, x, y))
  {
    StepZero(f);
    if x > 0 {
      StepForm(f, y);
      MulStep(f, x / 2, Step(f, y));
      MulHas(f, x / 2, Step(f, y));
      StepXor(f, if x % 2 == 1 then y else 0, Mul(f, x / 2, Step(f, y)));
    }
  }

  lemma {:induction false} MulShifted(f: Field, x: nat, y: nat, i: nat)
    requires f.Valid() && f.Has(y)
    ensures Mul(f, x, Shifted(f, y, i)) == Shifted(f, Mul(f, x, y), i)
  {
    if i > 0 {
      MulShifted(f, x, y, i - 1);
      ShiftedHas(f, y, i - 1);
      MulStep(f, x, Shifted(f, y, i - 1));
    }
  }

  /** Multiplications by x and by y commute as maps. */
  lemma {:induction false} MulExchange(f: Field, x: nat, y: nat, z: nat)
    requires f.Valid() && f.Has(z)
    ensures Mul(f, x, Mul(f, y, z)) == Mul(f, y, Mul(f, x, z))
    decreases y
  {
    MulZero(f, x);
    if y > 0 {
      var zy, rest := if y % 2 == 1 then z else 0, Mul(f, y / 2, Step(f, z));
      StepForm(f, z);
      MulHas(f, y / 2, Step(f, z));
      MulXorRight(f, x, zy, rest);
      MulExchange(f, x, y / 2, Step(f, z));
      MulStep(f, x, z);
    }
  }

  lemma {:induction false} MulOne(f: Field, x: nat)
    requires f.Valid() && f.Has(x)
    ensures Mul(f, x, 1) == x && Mul(f, 1, x) == x
  {
    XorZero(x);
    assert Mul(f, 1, x) == Xor(x, Mul(f, 0, Step(f, x)));
    if x > 0 {
      MulOne(f, x / 2);
      MulStep(f, x / 2, 1);
      TopBit(x / 2, f.w - 1);
      assert Step(f, x / 2) == 2 * (x / 2);
      XorZero(x / 2);
    }
  }

  /** Multiplication is commutative. */
  lemma {:induction false} MulComm(f: Field, x: nat, y: nat)
    requires f.Valid() && f.Has(x) && f.Has(y)
    ensures Mul(f, x, y) == Mul(f, y, x)
  {
    MulOne(f, x);
    MulOne(f, y);
    MulExchange(f, x, y, 1);
  }

  /** Multiplication is associative. */
  lemma {:induction false} MulAssoc(f: Field, x: nat, y: nat, z: nat)
    requires f.Valid() && f.Has(x) && f.Has(y) && f.Has(z)
    ensures Mul(f, x, Mul(f, y, z)) == Mul(f, Mul(f, x, y), z)
  {
    MulHas(f, x, y);
    MulComm(f, y, z);
    MulExchange(f, x, z, y);
    MulComm(f, z, Mul(f, x, y));
  }

  lemma {:induction false} MulXorLeftZero(f: Field, a: nat, b: nat, y: nat)
    requires f.Valid() && f.Has(a) && f.Has(b)
    requires Mul(f, a, y) == Mul(f, b, y)
    ensures f.Has(Xor(a, b)) && Mul(f, Xor(a, b), y) == 0
    ensures Xor(a, b) == 0 <==> a == b
  {
    XorBound(a, b, f.w);
    MulXorLeft(f, a, b, y);
    XorZero(Mul(f, a, y));
    XorZeroIsEqual(a, b);
  }

  // ---------- division ----------

  /** y annihilates nothing but 0. */
  ghost predicate Regular(f: Field, y: nat)
    requires f.Valid()
  {
    f.Has(y) && forall x :: f.Has(x) && Mul(f, x, y) == 0 ==> x == 0
  }

  ghost predicate Invertible(f: Field, y: nat)
    requires f.Valid()
  {
    f.Has(y) && exists z :: f.Has(z) && Mul(f, z, y) == 1
  }

  /** GF(2^w) proper: a valid modulus with no zero divisors. */
  ghost predicate IsField(f: Field) {
    f.Valid() && forall x, y :: f.Has(x) && f.Has(y) && Mul(f, x, y) == 0 ==> x == 0 || y == 0
  }

  /** In the finite ring of 2^w words, what is no zero divisor is invertible, and conversely. */
  lemma RegularIsInvertible(f: Field, y: nat)
    requires f.Valid() && f.Has(y)
    ensures Regular(f, y) <==> Invertible(f, y)
  {
    if Regular(f, y) {
      var n := Pow2(f.w);
      var s := seq(n, k requires 0 <= k < n => Mul(f, k, y));
      forall i | 0 <= i < n
        ensures s[i] < n
      {
        MulHas(f, i, y);
      }
      forall i, j | 0 <= i < j < n
        ensures s[i] != s[j]
      {
        if s[i] == s[j] { MulXorLeftZero(f, i, j, y); }
      }
      Pigeonhole(s, n);
      assert 1 in s;
      var z :| 0 <= z < n && s[z] == 1;
      assert Mul(f, z, y) == 1;
    }
    if Invertible(f, y) {
      var z :| f.Has(z) && Mul(f, z, y) == 1;
      forall x | f.Has(x) && Mul(f, x, y) == 0
        ensures x == 0
      {
        MulAssoc(f, x, y, z);
        MulComm(f, y, z);
        MulOne(f, x);
        MulZero(f, z);
      }
    }
  }

  lemma {:induction false} QuotientExists(f: Field, a: nat, b: nat)
    requires IsField(f) && f.Has(a) && f.Has(b) && b != 0
    ensures exists q :: f.Has(q) && Mul(f, q, b) == a
  {
    RegularIsInvertible(f, b);
    var z :| f.Has(z) && Mul(f, z, b) == 1;
    MulHas(f, a, z);
    MulAssoc(f, a, z, b);
    MulOne(f, a);
    assert Mul(f, Mul(f, a, z), b) == a;
  }

  /** The quotient a / b of the field. */
  ghost function Quotient(f: Field, a: nat, b: nat): (q: nat)
    requires IsField(f) && f.Has(a) && f.Has(b) && b != 0
    ensures f.Has(q) && Mul(f, q, b) == a
  {
    QuotientExists(f, a, b);
    var q :| f.Has(q) && Mul(f, q, b) == a;
    q
  }

  lemma {:induction false} Cancel(f: Field, x: nat, y: nat, b: nat)
    requires IsField(f) && f.Has(x) && f.Has(y) && f.Has(b) && b != 0
    requires Mul(f, x, b) == Mul(f, y, b)
    ensures x == y
  {
    MulXorLeftZero(f, x, y, b);
  }

  lemma QuotientNonzero(f: Field, a: nat, b: nat)
    requires IsField(f) && f.Has(a) && f.Has(b) && b != 0 && a != 0
    ensures Quotient(f, a, b) != 0
  {
    MulZero(f, b);
  }
}
