/** The word-at-a-time doublings of reed_sol.c act lane by lane as multiplication by 2. */
module PackedDouble {
  import opened Words
  import opened GaloisField
  import opened SplitTables
  import opened Lanes
  import opened Modular

  const W32: nat := 0x1_0000_0000

  /** Unsigned 32-bit `x << 1` and `x - y`. */
  function Shl1(x: nat): nat { (2 * x) % W32 }
  function Minus(x: int, y: int): nat { (x - y) % W32 }

  /** One word of reed_sol_galois_w08_region_multby_2 (s = 7) or _w16_ (s = 15); the right shift by s
      is a division. */
  function PackedWord(x: nat, mask1: nat, mask2: nat, prim: nat, top: nat): nat
    requires top > 0
  {
    var tmp := And(Shl1(x), mask1);
    var tmp2 := And(x, mask2);
    Xor(tmp, And(Minus(Shl1(tmp2), tmp2 / top), prim))
  }

  /** One word of reed_sol_galois_w32_region_multby_2. */
  function WholeWord(x: nat, prim: nat): nat {
    Xor(Shl1(x), if Bit(x, 31) then prim else 0)
  }

  function Pack4(b0: nat, b1: nat, b2: nat, b3: nat): nat { Cat(b0, Cat(b1, Cat(b2, b3, 8), 8), 8) }
  function Pack2(b0: nat, b1: nat): nat { Cat(b0, b1, 16) }

  lemma Pack4Value(b0: nat, b1: nat, b2: nat, b3: nat)
    requires b0 < 256 && b1 < 256 && b2 < 256
    ensures Pack4(b0, b1, b2, b3) == b0 + 0x100 * b1 + 0x1_0000 * b2 + 0x100_0000 * b3
  {
    hide Pow2, Cat;
    Pow2Values();
    CatValue(b2, b3, 8);
    CatValue(b1, Cat(b2, b3, 8), 8);
    CatValue(b0, Cat(b1, Cat(b2, b3, 8), 8), 8);
  }

  lemma Pack2Value(b0: nat, b1: nat)
    requires b0 < 0x1_0000
    ensures Pack2(b0, b1) == b0 + 0x1_0000 * b1
  {
    hide Pow2, Cat;
    Pow2Values();
    CatValue(b0, b1, 16);
  }

  lemma {:induction false} Pack4And(a0: nat, a1: nat, a2: nat, a3: nat, b0: nat, b1: nat, b2: nat, b3: nat)
    ensures And(Pack4(a0, a1, a2, a3), Pack4(b0, b1, b2, b3)) == Pack4(And(a0, b0), And(a1, b1), And(a2, b2), And(a3, b3))
  {
    hide And, Cat;
    CatAnd(a2, a3, b2, b3, 8);
    CatAnd(a1, Cat(a2, a3, 8), b1, Cat(b2, b3, 8), 8);
    CatAnd(a0, Cat(a1, Cat(a2, a3, 8), 8), b0, Cat(b1, Cat(b2, b3, 8), 8), 8);
  }

  lemma {:induction false} Pack4Xor(a0: nat, a1: nat, a2: nat, a3: nat, b0: nat, b1: nat, b2: nat, b3: nat)
    ensures Xor(Pack4(a0, a1, a2, a3), Pack4(b0, b1, b2, b3)) == Pack4(Xor(a0, b0), Xor(a1, b1), Xor(a2, b2), Xor(a3, b3))
  {
    hide Xor, Cat;
    CatXor(a2, a3, b2, b3, 8);
    CatXor(a1, Cat(a2, a3, 8), b1, Cat(b2, b3, 8), 8);
    CatXor(a0, Cat(a1, Cat(a2, a3, 8), 8), b0, Cat(b1, Cat(b2, b3, 8), 8), 8);
  }

  /** The top bit of a lane, and what is left of the lane after doubling. */
  function Top(b: nat, w: nat): nat
    requires w > 0
  {
    if b >= Pow2(w - 1) then 1 else 0
  }

  function Rest(b: nat, w: nat): int
    requires w > 0
  {
    2 * b - Pow2(w) * Top(b, w)
  }

  /** What the masks do to one lane, with the bit e that arrives from the lane below. */
  lemma LaneMasks(b: nat, e: nat, p: nat, w: nat)
    requires w > 0 && b < Pow2(w) && e < 2 && p < Pow2(w)
    ensures And(b, Pow2(w - 1)) == Pow2(w - 1) * Top(b, w)
    ensures 0 <= Rest(b, w) && Rest(b, w) + e < Pow2(w) && And(Rest(b, w) + e, Pow2(w) - 2) == Rest(b, w)
    ensures Xor(Rest(b, w), And((Pow2(w) - 1) * Top(b, w), p)) == LaneDouble(b, p, w)
  {
    hide And, Xor;
    AndTop(b, w - 1);
    AndOnes(p, w);
    assert Pow2(w) == 2 * Pow2(w - 1);
    AndEven(if b >= Pow2(w - 1) then b - Pow2(w - 1) else b, e, w);
    AndNothing(p);
  }

  lemma {:induction false} AndNothing(p: nat)
    ensures And(0, p) == 0
  {}

  /** Doubling the whole word moves each top bit into the next lane. */
  lemma ShiftBytes(b0: nat, b1: nat, b2: nat, b3: nat, r0: nat, r1: nat, r2: nat, r3: nat,
      t0: nat, t1: nat, t2: nat, t3: nat)
    requires b0 < 256 && b1 < 256 && b2 < 256 && t0 < 2 && t1 < 2 && t2 < 2
    requires 2 * b0 == r0 + 256 * t0 && 2 * b1 == r1 + 256 * t1 && 2 * b2 == r2 + 256 * t2 && 2 * b3 == r3 + 256 * t3
    requires r0 < 256 && r1 + t0 < 256 && r2 + t1 < 256 && r3 + t2 < 256
    ensures Shl1(Pack4(b0, b1, b2, b3)) == Pack4(r0, r1 + t0, r2 + t1, r3 + t2)
  {
    hide Pack4;
    Pack4Value(b0, b1, b2, b3);
    Pack4Value(r0, r1 + t0, r2 + t1, r3 + t2);
    var x, y := Pack4(b0, b1, b2, b3), Pack4(r0, r1 + t0, r2 + t1, r3 + t2);
    assert 2 * x == y + t3 * W32 && y < W32;
    ModShift(y, t3, W32);
    ModSmall(y, W32);
  }

  /** Subtracting turns each top bit into a lane of ones. */
  lemma {:induction false} FillBytes(b0: nat, b1: nat, b2: nat, b3: nat, t0: nat, t1: nat, t2: nat, t3: nat)
    requires t0 < 2 && t1 < 2 && t2 < 2 && t3 < 2
    requires And(b0, 128) == 128 * t0 && And(b1, 128) == 128 * t1 && And(b2, 128) == 128 * t2 && And(b3, 128) == 128 * t3
    ensures var tops := And(Pack4(b0, b1, b2, b3), Pack4(128, 128, 128, 128));
      Minus(Shl1(tops), tops / 128) == Pack4(255 * t0, 255 * t1, 255 * t2, 255 * t3)
  {
    hide Pack4, And;
    Pack4And(b0, b1, b2, b3, 128, 128, 128, 128);
    Pack4Value(128 * t0, 128 * t1, 128 * t2, 128 * t3);
    Pack4Value(255 * t0, 255 * t1, 255 * t2, 255 * t3);
    SpreadTops(Pack4(128 * t0, 128 * t1, 128 * t2, 128 * t3), t0, t1, t2, t3);
  }

  /** Four bytes at once. */
  lemma PackedBytes(b0: nat, b1: nat, b2: nat, b3: nat, p: nat)
    requires b0 < 256 && b1 < 256 && b2 < 256 && b3 < 256 && p < 256
    ensures PackedWord(Pack4(b0, b1, b2, b3), Pack4(254, 254, 254, 254), Pack4(128, 128, 128, 128), Pack4(p, p, p, p), 128)
      == Pack4(LaneDouble(b0, p, 8), LaneDouble(b1, p, 8), LaneDouble(b2, p, 8), LaneDouble(b3, p, 8))
  {
    hide Pow2, Pack4, And, Xor, LaneDouble, Shl1, Minus;
    Pow2Values();
    var t0, t1, t2, t3 := Top(b0, 8), Top(b1, 8), Top(b2, 8), Top(b3, 8);
    LaneMasks(b0, 0, p, 8);
    LaneMasks(b1, t0, p, 8);
    LaneMasks(b2, t1, p, 8);
    LaneMasks(b3, t2, p, 8);
    var r0, r1, r2, r3 := Rest(b0, 8), Rest(b1, 8), Rest(b2, 8), Rest(b3, 8);
    ShiftBytes(b0, b1, b2, b3, r0, r1, r2, r3, t0, t1, t2, t3);
    Pack4And(r0, r1 + t0, r2 + t1, r3 + t2, 254, 254, 254, 254);
    FillBytes(b0, b1, b2, b3, t0, t1, t2, t3);
    Pack4And(255 * t0, 255 * t1, 255 * t2, 255 * t3, p, p, p, p);
    Pack4Xor(r0, r1, r2, r3, And(255 * t0, p), And(255 * t1, p), And(255 * t2, p), And(255 * t3, p));
  }

  lemma SpreadTops(tops: nat, t0: nat, t1: nat, t2: nat, t3: nat)
    requires t0 < 2 && t1 < 2 && t2 < 2 && t3 < 2
    requires tops == 128 * t0 + 0x100 * (128 * t1) + 0x1_0000 * (128 * t2) + 0x100_0000 * (128 * t3)
    ensures Minus(Shl1(tops), tops / 128) == 255 * t0 + 0x100 * (255 * t1) + 0x1_0000 * (255 * t2) + 0x100_0000 * (255 * t3)
  {
    assert tops / 128 == t0 + 0x100 * t1 + 0x1_0000 * t2 + 0x100_0000 * t3;
    assert Shl1(tops) == 0x100 * t0 + 0x1_0000 * t1 + 0x100_0000 * t2;
  }

  lemma ShiftHalves(b0: nat, b1: nat, r0: nat, r1: nat, t0: nat, t1: nat)
    requires b0 < 0x1_0000 && t0 < 2 && 2 * b0 == r0 + 0x1_0000 * t0 && 2 * b1 == r1 + 0x1_0000 * t1
    requires r0 < 0x1_0000 && r1 + t0 < 0x1_0000
    ensures Shl1(Pack2(b0, b1)) == Pack2(r0, r1 + t0)
  {
    hide Pack2;
    Pack2Value(b0, b1);
    Pack2Value(r0, r1 + t0);
    var x, y := Pack2(b0, b1), Pack2(r0, r1 + t0);
    assert 2 * x == y + t1 * W32 && y < W32;
    ModShift(y, t1, W32);
    ModSmall(y, W32);
  }

  lemma {:induction false} FillHalves(b0: nat, b1: nat, t0: nat, t1: nat)
    requires t0 < 2 && t1 < 2 && And(b0, 0x8000) == 0x8000 * t0 && And(b1, 0x8000) == 0x8000 * t1
    ensures var tops := And(Pack2(b0, b1), Pack2(0x8000, 0x8000));
      Minus(Shl1(tops), tops / 0x8000) == Pack2(0xffff * t0, 0xffff * t1)
  {
    hide Pack2, And;
    Pack2Steps(b0, b1, 0x8000, 0x8000);
    Pack2Value(0x8000 * t0, 0x8000 * t1);
    Pack2Value(0xffff * t0, 0xffff * t1);
    var tops := Pack2(0x8000 * t0, 0x8000 * t1);
    assert tops / 0x8000 == t0 + 0x1_0000 * t1;
    assert Shl1(tops) == 0x1_0000 * t0;
  }

  /** Two half-words at once. */
  lemma PackedHalves(b0: nat, b1: nat, p: nat)
    requires b0 < 0x1_0000 && b1 < 0x1_0000 && p < 0x1_0000
    ensures PackedWord(Pack2(b0, b1), Pack2(0xfffe, 0xfffe), Pack2(0x8000, 0x8000), Pack2(p, p), 0x8000)
      == Pack2(LaneDouble(b0, p, 16), LaneDouble(b1, p, 16))
  {
    hide Pow2, Pack2, And, Xor, LaneDouble, Shl1, Minus;
    Pow2Values();
    var t0, t1 := Top(b0, 16), Top(b1, 16);
    LaneMasks(b0, 0, p, 16);
    LaneMasks(b1, t0, p, 16);
    var r0, r1 := Rest(b0, 16), Rest(b1, 16);
    ShiftHalves(b0, b1, r0, r1, t0, t1);
    Pack2Steps(r0, r1 + t0, 0xfffe, 0xfffe);
    FillHalves(b0, b1, t0, t1);
    Pack2Steps(0xffff * t0, 0xffff * t1, p, p);
    Pack2Steps(r0, r1, And(0xffff * t0, p), And(0xffff * t1, p));
  }

  lemma {:induction false} Pack2Steps(a0: nat, a1: nat, b0: nat, b1: nat)
    ensures And(Pack2(a0, a1), Pack2(b0, b1)) == Pack2(And(a0, b0), And(a1, b1))
    ensures Xor(Pack2(a0, a1), Pack2(b0, b1)) == Pack2(Xor(a0, b0), Xor(a1, b1))
  {
    CatAnd(a0, a1, b0, b1, 16);
    CatXor(a0, a1, b0, b1, 16);
  }

  // ---------- in terms of lanes ----------

  predicate IsLane(w: nat, l: nat) {
    (w == 8 && l < 4) || (w == 16 && l < 2) || (w == 32 && l == 0)
  }

  lemma Unpack4(x: nat)
    requires x < Pow2(32)
    ensures x == Pack4(Lane(x, 8, 0), Lane(x, 8, 1), Lane(x, 8, 2), Lane(x, 8, 3))
  {
    hide Low, Cat;
    CatOf(x, 8);
    CatOf(Shr(x, 8), 8);
    CatOf(Shr(Shr(x, 8), 8), 8);
    ShrAdd(x, 8, 8);
    ShrAdd(x, 16, 8);
    ShrBound(x, 24, 8);
    LowSmall(Shr(x, 24), 8);
    assert Shr(x, 0) == x;
  }

  lemma LanesOfPack4(b0: nat, b1: nat, b2: nat, b3: nat)
    requires b0 < 256 && b1 < 256 && b2 < 256 && b3 < 256
    ensures var x := Pack4(b0, b1, b2, b3);
      Lane(x, 8, 0) == b0 && Lane(x, 8, 1) == b1 && Lane(x, 8, 2) == b2 && Lane(x, 8, 3) == b3
  {
    hide Low, Cat, Pow2;
    Pow2Values();
    var x := Pack4(b0, b1, b2, b3);
    CatParts(b0, Cat(b1, Cat(b2, b3, 8), 8), 8);
    CatParts(b1, Cat(b2, b3, 8), 8);
    CatParts(b2, b3, 8);
    ShrAdd(x, 8, 8);
    ShrAdd(x, 16, 8);
    LowSmall(b3, 8);
    assert Shr(x, 0) == x;
  }

  lemma Unpack2(x: nat)
    requires x < Pow2(32)
    ensures x == Pack2(Lane(x, 16, 0), Lane(x, 16, 1))
  {
    hide Low, Cat;
    CatOf(x, 16);
    ShrBound(x, 16, 16);
    LowSmall(Shr(x, 16), 16);
    assert Shr(x, 0) == x;
  }

  lemma LanesOfPack2(b0: nat, b1: nat)
    requires b0 < 0x1_0000 && b1 < 0x1_0000
    ensures Lane(Pack2(b0, b1), 16, 0) == b0 && Lane(Pack2(b0, b1), 16, 1) == b1
  {
    hide Low, Cat, Pow2;
    Pow2Values();
    CatParts(b0, b1, 16);
    LowSmall(b1, 16);
    assert Shr(Pack2(b0, b1), 0) == Pack2(b0, b1);
  }

  lemma LaneOfWord(x: nat)
    requires x < Pow2(32)
    ensures Lane(x, 32, 0) == x
  {
    LowSmall(x, 32);
    assert Shr(x, 0) == x;
  }

  /** The folded polynomial copied into every lane. */
  function PrimWord(p: nat, w: nat): nat {
    if w == 8 then Pack4(p, p, p, p) else if w == 16 then Pack2(p, p) else p
  }

  /** One word of the region doubling for w = 8, 16 or 32. */
  function DoubleWord(x: nat, p: nat, w: nat): nat {
    if w == 8 then PackedWord(x, 0xfefe_fefe, 0x8080_8080, PrimWord(p, 8), 0x80)
    else if w == 16 then PackedWord(x, 0xfffe_fffe, 0x8000_8000, PrimWord(p, 16), 0x8000)
    else WholeWord(x, p)
  }

  /** Every lane of the doubled word is the lane times 2. */
  lemma DoubleWordLane(f: Field, x: nat, l: nat)
    requires f.Valid() && IsLane(f.w, l) && x < Pow2(32)
    ensures DoubleWord(x, Low(f.poly, f.w), f.w) < Pow2(32)
    ensures Lane(DoubleWord(x, Low(f.poly, f.w), f.w), f.w, l) == Step(f, Lane(x, f.w, l))
  {
    var p, w := Low(f.poly, f.w), f.w;
    LaneDoubleIsStep(f, Lane(x, w, l));
    if w == 8 {
      DoubleBytes(f, x);
    } else if w == 16 {
      DoubleHalves(f, x);
    } else {
      DoubleWhole(f, x);
    }
  }

  lemma DoubleBytes(f: Field, x: nat)
    requires f.Valid() && f.w == 8 && x < Pow2(32)
    ensures DoubleWord(x, Low(f.poly, 8), 8) < Pow2(32)
    ensures forall l: nat :: l < 4 ==> Lane(DoubleWord(x, Low(f.poly, 8), 8), 8, l) == Step(f, Lane(x, 8, l))
  {
    hide Low, Pow2, Pack4, Lane, PackedWord, LaneDouble, Step, Xor, And;
    Pow2Values();
    var p := Low(f.poly, 8);
    var b0, b1, b2, b3 := Lane(x, 8, 0), Lane(x, 8, 1), Lane(x, 8, 2), Lane(x, 8, 3);
    Unpack4(x);
    PackedBytes(b0, b1, b2, b3, p);
    Pack4Value(254, 254, 254, 254);
    Pack4Value(128, 128, 128, 128);
    LaneDoubleIsStep(f, b0); StepForm(f, b0);
    LaneDoubleIsStep(f, b1); StepForm(f, b1);
    LaneDoubleIsStep(f, b2); StepForm(f, b2);
    LaneDoubleIsStep(f, b3); StepForm(f, b3);
    LanesOfPack4(Step(f, b0), Step(f, b1), Step(f, b2), Step(f, b3));
    Pack4Value(Step(f, b0), Step(f, b1), Step(f, b2), Step(f, b3));
  }

  lemma DoubleHalves(f: Field, x: nat)
    requires f.Valid() && f.w == 16 && x < Pow2(32)
    ensures DoubleWord(x, Low(f.poly, 16), 16) < Pow2(32)
    ensures forall l: nat :: l < 2 ==> Lane(DoubleWord(x, Low(f.poly, 16), 16), 16, l) == Step(f, Lane(x, 16, l))
  {
    hide Low, Pow2, Pack2, Lane, PackedWord, LaneDouble, Step, Xor, And;
    Pow2Values();
    var p := Low(f.poly, 16);
    var b0, b1 := Lane(x, 16, 0), Lane(x, 16, 1);
    Unpack2(x);
    PackedHalves(b0, b1, p);
    Pack2Value(0xfffe, 0xfffe);
    Pack2Value(0x8000, 0x8000);
    LaneDoubleIsStep(f, b0); StepForm(f, b0);
    LaneDoubleIsStep(f, b1); StepForm(f, b1);
    LanesOfPack2(Step(f, b0), Step(f, b1));
    Pack2Value(Step(f, b0), Step(f, b1));
  }

  lemma DoubleWhole(f: Field, x: nat)
    requires f.Valid() && f.w == 32 && x < Pow2(32)
    ensures DoubleWord(x, Low(f.poly, 32), 32) < Pow2(32)
    ensures Lane(DoubleWord(x, Low(f.poly, 32), 32), 32, 0) == Step(f, Lane(x, 32, 0))
  {
    hide Low, Pow2, Lane, Xor, Bit;
    Pow2Values();
    LaneOfWord(x);
    LaneDoubleIsStep(f, x);
    StepForm(f, x);
    Pow2Half();
    TopBit(x, 31);
    LaneOfWord(Step(f, x));
  }

  lemma Pow2Half()
    ensures Pow2(31) == 0x8000_0000
  {
    Pow2Values();
    assert Pow2(32) == 2 * Pow2(31);
  }

  /** Lanes of a sum. */
  lemma {:induction false} LaneXor(x: nat, y: nat, w: nat, l: nat)
    ensures Lane(Xor(x, y), w, l) == Xor(Lane(x, w, l), Lane(y, w, l))
  {
    ShrXor(x, y, w * l);
    LowXor(Shr(x, w * l), Shr(y, w * l), w);
  }

  lemma {:induction false} ShrXor(x: nat, y: nat, n: nat)
    ensures Shr(Xor(x, y), n) == Xor(Shr(x, n), Shr(y, n))
  {
    if n > 0 {
      XorHalves(x, y);
      ShrXor(x / 2, y / 2, n - 1);
    }
  }
}
