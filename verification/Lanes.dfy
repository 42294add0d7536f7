/** 32-bit machine words as packed lanes, and doubling of every lane at once. */
module Lanes {
  import opened Words
  import opened GaloisField
  import opened SplitTables

  /** The C operators & and | on unsigned words. */
  function And(x: nat, y: nat): nat {
    if x == 0 then 0 else (if x % 2 == 1 && y % 2 == 1 then 1 else 0) + 2 * And(x / 2, y / 2)
  }

  function Or(x: nat, y: nat): nat
    decreases x + y
  {
    if x == 0 && y == 0 then 0 else (if x % 2 == 1 || y % 2 == 1 then 1 else 0) + 2 * Or(x / 2, y / 2)
  }

  /** The word with b above the n bits of a. */
  function Cat(a: nat, b: nat, n: nat): nat {
    if n == 0 then b else a % 2 + 2 * Cat(a / 2, b, n - 1)
  }

  /** Lane l of w bits. */
  function Lane(x: nat, w: nat, l: nat): (b: nat)
    ensures b < Pow2(w)
  {
    Low(Shr(x, w * l), w)
  }

  // ---------- words as concatenations ----------

  lemma {:induction false} CatParts(a: nat, b: nat, n: nat)
    requires a < Pow2(n)
    ensures Low(Cat(a, b, n), n) == a && Shr(Cat(a, b, n), n) == b
  {
    if n > 0 { CatParts(a / 2, b, n - 1); }
  }

  lemma {:induction false} CatOf(x: nat, n: nat)
    ensures x == Cat(Low(x, n), Shr(x, n), n)
  {
    if n > 0 {
      LowHalves(x, n);
      CatOf(x / 2, n - 1);
    }
  }

  lemma {:induction false} ShrAdd(x: nat, m: nat, n: nat)
    ensures Shr(Shr(x, m), n) == Shr(x, m + n)
  {
    if m > 0 { ShrAdd(x / 2, m - 1, n); }
  }

  lemma {:induction false} ShrBound(x: nat, m: nat, n: nat)
    requires x < Pow2(m + n)
    ensures Shr(x, m) < Pow2(n)
  {
    if m > 0 { ShrBound(x / 2, m - 1, n); }
  }

  lemma {:induction false} CatXor(a: nat, b: nat, c: nat, d: nat, n: nat)
    ensures Xor(Cat(a, b, n), Cat(c, d, n)) == Cat(Xor(a, c), Xor(b, d), n)
  {
    if n > 0 {
      XorHalves(a, c);
      var x, y := Cat(a, b, n), Cat(c, d, n);
      assert x % 2 == a % 2 && x / 2 == Cat(a / 2, b, n - 1);
      assert y % 2 == c % 2 && y / 2 == Cat(c / 2, d, n - 1);
      XorHalves(x, y);
      CatXor(a / 2, b, c / 2, d, n - 1);
    }
  }

  lemma {:induction false} AndHalves(x: nat, y: nat)
    ensures And(x, y) % 2 == (if x % 2 == 1 && y % 2 == 1 then 1 else 0) && And(x, y) / 2 == And(x / 2, y / 2)
  {}

  lemma {:induction false} CatAnd(a: nat, b: nat, c: nat, d: nat, n: nat)
    ensures And(Cat(a, b, n), Cat(c, d, n)) == Cat(And(a, c), And(b, d), n)
  {
    if n > 0 {
      AndHalves(a, c);
      var x, y := Cat(a, b, n), Cat(c, d, n);
      assert x % 2 == a % 2 && x / 2 == Cat(a / 2, b, n - 1);
      assert y % 2 == c % 2 && y / 2 == Cat(c / 2, d, n - 1);
      AndHalves(x, y);
      CatAnd(a / 2, b, c / 2, d, n - 1);
    }
  }

  lemma {:induction false} CatOr(a: nat, b: nat, n: nat)
    ensures Or(Cat(a, 0, n), Cat(0, b, n)) == Cat(a, b, n)
  {
    if n == 0 {
      OrZero(b);
    } else {
      CatOr(a / 2, b, n - 1);
      OrHalves(Cat(a, 0, n), Cat(0, b, n));
    }
  }

  lemma {:induction false} OrHalves(x: nat, y: nat)
    ensures Or(x, y) % 2 == (if x % 2 == 1 || y % 2 == 1 then 1 else 0) && Or(x, y) / 2 == Or(x / 2, y / 2)
  {}

  lemma {:induction false} OrZero(x: nat)
    ensures Or(0, x) == x
  {
    if x > 0 { OrZero(x / 2); }
  }

  /** Concatenation is arithmetic. */
  lemma {:induction false} CatValue(a: nat, b: nat, n: nat)
    requires a < Pow2(n)
    ensures Cat(a, b, n) == a + Pow2(n) * b
  {
    if n > 0 {
      CatValue(a / 2, b, n - 1);
      var p := Pow2(n - 1);
      assert 2 * (p * b) == (2 * p) * b;
    }
  }

  lemma Pow2Values()
    ensures Pow2(7) == 0x80 && Pow2(8) == 0x100 && Pow2(15) == 0x8000 && Pow2(16) == 0x1_0000
    ensures Pow2(24) == 0x100_0000 && Pow2(32) == 0x1_0000_0000
  {
    assert Pow2(4) == 16;
    assert Pow2(12) == 4096;
    assert Pow2(20) == 0x10_0000;
    assert Pow2(28) == 0x1000_0000;
  }

  // ---------- masks on one lane ----------

  /** `b & (1 << n)` on a lane of n + 1 bits. */
  lemma {:induction false} AndTop(b: nat, n: nat)
    requires b < Pow2(n + 1)
    ensures And(b, Pow2(n)) == if b >= Pow2(n) then Pow2(n) else 0
  {
    if n > 0 {
      AndTop(b / 2, n - 1);
      AndHalves(b, Pow2(n));
    } else {
      AndHalves(b, 1);
      assert And(b / 2, 0) == 0;
    }
  }

  /** A lane of ones keeps everything. */
  lemma {:induction false} AndOnes(p: nat, n: nat)
    requires p < Pow2(n)
    ensures And(Pow2(n) - 1, p) == p && And(p, Pow2(n) - 1) == p
  {
    if n > 0 {
      AndOnes(p / 2, n - 1);
      assert (Pow2(n) - 1) / 2 == Pow2(n - 1) - 1 && (Pow2(n) - 1) % 2 == 1;
      AndHalves(Pow2(n) - 1, p);
      AndHalves(p, Pow2(n) - 1);
    }
  }

  /** Clearing the lowest bit. */
  lemma AndEven(c: nat, e: nat, n: nat)
    requires n > 0 && c < Pow2(n - 1) && e < 2
    ensures And(2 * c + e, Pow2(n) - 2) == 2 * c
  {
    AndOnes(c, n - 1);
    AndHalves(2 * c + e, Pow2(n) - 2);
    assert (Pow2(n) - 2) / 2 == Pow2(n - 1) - 1 && (Pow2(n) - 2) % 2 == 0;
  }

  // ---------- doubling one lane ----------

  /** What the packed code does to a lane b, given the folded polynomial p. */
  function LaneDouble(b: nat, p: nat, w: nat): nat
    requires w > 0
  {
    Xor(if b >= Pow2(w - 1) then 2 * b - Pow2(w) else 2 * b, if b >= Pow2(w - 1) then p else 0)
  }

  lemma {:induction false} LowDouble(b: nat, w: nat)
    requires w > 0 && b < Pow2(w)
    ensures Low(2 * b, w) == if b >= Pow2(w - 1) then 2 * b - Pow2(w) else 2 * b
  {
    if b >= Pow2(w - 1) {
      LowDrop(2 * b - Pow2(w), w);
    } else {
      LowSmall(2 * b, w);
    }
  }

  lemma {:induction false} LowDrop(x: nat, n: nat)
    requires x < Pow2(n)
    ensures Low(x + Pow2(n), n) == x
  {
    if n > 0 { LowDrop(x / 2, n - 1); }
  }

  /** It is multiplication by 2 in the field. */
  lemma LaneDoubleIsStep(f: Field, b: nat)
    requires f.Valid() && f.Has(b)
    ensures LaneDouble(b, Low(f.poly, f.w), f.w) == Step(f, b)
  {
    hide Xor, Low, Bit;
    StepForm(f, b);
    LowDouble(b, f.w);
    TopBit(b, f.w - 1);
  }
}
