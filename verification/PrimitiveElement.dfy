/** What a successful run of the log-table loop proves about the reduction polynomial. */
module PrimitiveElement {
  import opened Words
  import opened Counting
  import opened GaloisField

  /** The number of nonzero words, nwm1[w]. */
  function Order(f: Field): nat { Pow2(f.w) - 1 }

  /** The i-th power of the polynomial x. */
  function Power(f: Field, i: nat): nat
    requires f.Valid()
  {
    Shifted(f, 1, i)
  }

  /** The collision test of the table loop never fires. */
  ghost predicate NoCollision(f: Field)
    requires f.Valid()
  {
    forall i: nat, j: nat :: i < j < Order(f) ==> Power(f, i) != Power(f, j)
  }

  predicate Odd(f: Field) { f.poly % 2 == 1 }

  /** prim_poly[1], ..., prim_poly[32] */
  const PRIM_POLY: seq<nat> := [
    0x1, 0x7, 0xb, 0x13, 0x25, 0x43, 0x89, 0x11d,
    0x211, 0x409, 0x805, 0x1053, 0x201b, 0x4443, 0x8003, 0x1100b,
    0x20009, 0x40081, 0x80027, 0x100009, 0x200005, 0x400003, 0x800021, 0x1000087,
    0x2000009, 0x4000047, 0x8000027, 0x10000009, 0x20000005, 0x40800007, 0x80000009, 0x400007
  ]

  /** The field that galois.c uses for word size w. */
  function StandardField(w: nat): (f: Field)
    requires 1 <= w <= 32
    ensures f.Valid() && f.w == w && Odd(f)
  {
    Field(w, PRIM_POLY[w - 1])
  }

  lemma PowerHas(f: Field, i: nat)
    requires f.Valid()
    ensures f.Has(Power(f, i))
  {
    ShiftedHas(f, 1, i);
  }

  /** With an odd reduction polynomial the step is injective. */
  lemma StepNonzero(f: Field, y: nat)
    requires f.Valid() && Odd(f) && f.Has(y) && y != 0
    ensures Step(f, y) != 0
  {
    StepForm(f, y);
    LowHalves(2 * y, f.w);
    LowHalves(f.poly, f.w);
    XorHalves(Low(2 * y, f.w), Fold(f, y));
  }

  lemma StepInjective(f: Field, x: nat, y: nat)
    requires f.Valid() && Odd(f) && f.Has(x) && f.Has(y) && Step(f, x) == Step(f, y)
    ensures x == y
  {
    StepXor(f, x, y);
    XorZero(Step(f, x));
    XorZeroIsEqual(x, y);
    if Xor(x, y) != 0 { StepNonzero(f, Xor(x, y)); }
  }

  lemma {:induction false} PowerNonzero(f: Field, i: nat)
    requires f.Valid() && Odd(f)
    ensures Power(f, i) != 0
  {
    if i > 0 {
      PowerNonzero(f, i - 1);
      PowerHas(f, i - 1);
      StepNonzero(f, Power(f, i - 1));
    }
  }

  /** Powers multiply by adding exponents. */
  lemma {:induction false} PowerMul(f: Field, i: nat, j: nat)
    requires f.Valid()
    ensures Mul(f, Power(f, i), Power(f, j)) == Power(f, i + j)
  {
    PowerHas(f, i);
    MulShifted(f, Power(f, i), 1, j);
    MulOne(f, Power(f, i));
    ShiftedAdd(f, 1, i, j);
  }

  /** Every nonzero word is a power of x. */
  lemma EveryWordIsPower(f: Field, x: nat) returns (j: nat)
    requires f.Valid() && Odd(f) && NoCollision(f) && f.Has(x) && x != 0
    ensures j < Order(f) && Power(f, j) == x
  {
    var n := Order(f);
    forall i: nat
      ensures 0 < Power(f, i) <= n
    {
      PowerHas(f, i);
      PowerNonzero(f, i);
    }
    var s := seq(n, i requires 0 <= i < n => Power(f, i) - 1);
    assert Distinct(s) by {
      forall i, k | 0 <= i < k < n
        ensures s[i] != s[k]
      {
        assert Power(f, i) != Power(f, k);
      }
    }
    Pigeonhole(s, n);
    assert x - 1 in s;
    j :| 0 <= j < n && s[j] == x - 1;
  }

  /** The powers of x run through the nonzero words and come back to 1. */
  lemma PowerCycle(f: Field)
    requires f.Valid() && Odd(f) && NoCollision(f)
    ensures Power(f, Order(f)) == 1
  {
    var n := Order(f);
    assert n >= 1;
    PowerHas(f, n);
    PowerNonzero(f, n);
    var j := EveryWordIsPower(f, Power(f, n));
    if j > 0 {
      PowerHas(f, n - 1);
      PowerHas(f, j - 1);
      StepInjective(f, Power(f, n - 1), Power(f, j - 1));
    }
  }

  lemma PowerPeriod(f: Field, i: nat)
    requires f.Valid() && Odd(f) && NoCollision(f)
    ensures Power(f, i + Order(f)) == Power(f, i)
  {
    PowerCycle(f);
    ShiftedAdd(f, 1, Order(f), i);
  }

  /** A modulus whose tables can be built has no zero divisors. */
  lemma TablesMakeField(f: Field)
    requires f.Valid() && Odd(f) && NoCollision(f)
    ensures IsField(f)
  {
    forall x, y | f.Has(x) && f.Has(y) && Mul(f, x, y) == 0
      ensures x == 0 || y == 0
    {
      if x != 0 && y != 0 {
        var i := EveryWordIsPower(f, x);
        var j := EveryWordIsPower(f, y);
        PowerMul(f, i, j);
        PowerNonzero(f, i + j);
      }
    }
  }
}
