/** The seven byte-by-byte tables of w = 32 and galois_split_w8_multiply. */
module SplitTables {
  import opened Words
  import opened GaloisField
  import ShiftArithmetic

  /** The C expressions `x >> n` and, where no bit is lost, `x << n`. */
  function Shr(x: nat, n: nat): nat {
    if n == 0 then x else Shr(x / 2, n - 1)
  }

  function Shl(x: nat, n: nat): nat {
    if n == 0 then x else 2 * Shl(x, n - 1)
  }

  /** `(x >> 8 * i) & 255` */
  function Byte(x: nat, i: nat): (b: nat)
    ensures b < Pow2(8)
  {
    Low(Shr(x, 8 * i), 8)
  }

  lemma Pow2Eight()
    ensures Pow2(8) == 256
  {
    assert Pow2(4) == 16;
  }

  lemma {:induction false} ShlBound(x: nat, n: nat, m: nat)
    requires x < Pow2(m)
    ensures Shl(x, n) < Pow2(m + n)
  {
    if n > 0 { ShlBound(x, n - 1, m); }
  }

  lemma {:induction false} ShlHalf(x: nat, n: nat)
    ensures Shl(x, n + 1) == 2 * Shl(x, n) && Shl(2 * x, n) == 2 * Shl(x, n)
  {
    if n > 0 { ShlHalf(x, n - 1); }
  }

  /** The low n + m bits are the low n bits and the next m bits. */
  lemma {:induction false} LowSplit(x: nat, n: nat, m: nat)
    ensures Low(x, n + m) == Xor(Low(x, n), Shl(Low(Shr(x, n), m), n))
  {
    if n == 0 {
      XorZero(Low(x, m));
    } else {
      LowSplit(x / 2, n - 1, m);
      LowHalves(x, n);
      LowHalves(x, n + m);
      var top := Shl(Low(Shr(x, n), m), n);
      assert top % 2 == 0 && top / 2 == Shl(Low(Shr(x / 2, n - 1), m), n - 1);
      XorHalves(Low(x, n), top);
    }
  }

  /** Shifting a short word folds nothing back. */
  lemma {:induction false} ShiftNoFold(f: Field, p: nat, m: nat, n: nat)
    requires f.Valid() && p < Pow2(m) && m + n <= f.w
    ensures Shifted(f, p, n) == Shl(p, n)
  {
    if n > 0 {
      ShiftNoFold(f, p, m, n - 1);
      ShlBound(p, n - 1, m);
      if m + n < f.w { Pow2Increasing(m + n, f.w); }
      TopBit(Shl(p, n - 1), f.w - 1);
    }
  }

  /** Only the sum of the two byte positions matters: why one table serves every pair (i, j) with
      the same i + j. */
  lemma {:induction false} ByteProducts(f: Field, p1: nat, p2: nat, i: nat, j: nat)
    requires f.Valid() && f.w == 32 && p1 < Pow2(8) && p2 < Pow2(8) && i < 4 && j < 4
    ensures f.Has(Shl(p1, 8 * i)) && f.Has(Shl(p2, 8 * j)) && f.Has(p1) && f.Has(p2)
    ensures Mul(f, Shl(p1, 8 * i), Shl(p2, 8 * j)) == Shifted(f, Mul(f, p1, p2), 8 * (i + j))
  {
    hide Xor, Low, Bit, Mul, Shl, Shr;
    Pow2Increasing(8, 32);
    ShiftNoFold(f, p1, 8, 8 * i);
    ShiftNoFold(f, p2, 8, 8 * j);
    ShiftedHas(f, p1, 8 * i);
    ShiftedHas(f, p2, 8 * j);
    var a := Shl(p1, 8 * i);
    MulShifted(f, a, p2, 8 * j);
    MulComm(f, a, p2);
    MulShifted(f, p2, p1, 8 * i);
    MulComm(f, p2, p1);
    ShiftedAdd(f, Mul(f, p1, p2), 8 * i, 8 * j);
  }

  /** The contents of the table for byte positions that add up to t. */
  ghost predicate HoldsProducts(f: Field, t: nat, table: seq<nat>)
    requires f.Valid()
  {
    |table| == 65536 &&
    forall p1, p2 :: 0 <= p1 < 256 && 0 <= p2 < 256 ==>
      table[256 * p1 + p2] == Shifted(f, Mul(f, p1, p2), 8 * t)
  }

  /** galois_split_w8, once created. */
  ghost predicate Ready(f: Field, tables: seq<seq<nat>>) {
    f.Valid() && f.w == 32 && |tables| == 7 &&
    forall t :: 0 <= t < 7 ==> HoldsProducts(f, t, tables[t])
  }

  /** galois_split_w8_multiply */
  method SplitMultiply(f: Field, tables: seq<seq<nat>>, x: nat, y: nat) returns (accumulator: nat)
    requires Ready(f, tables) && f.Has(x) && f.Has(y)
    ensures accumulator == Mul(f, x, y)
  {
    hide Xor, Low, Bit, Mul, Shl, Shr;
    accumulator := 0;
    Pow2Eight();
    LowZeroes(x, y);
    MulZero(f, y);
    for i := 0 to 4
      invariant accumulator == Mul(f, Low(x, 8 * i), y)
    {
      var a := 256 * Byte(x, i);
      ghost var before := accumulator;
      ghost var xi := Shl(Byte(x, i), 8 * i);
      XorZero(before);
      MulZero(f, xi);
      for j := 0 to 4
        invariant accumulator == Xor(before, Mul(f, xi, Low(y, 8 * j)))
      {
        var b := Byte(y, j);
        SplitStep(f, x, y, i, j);
        XorAssoc(before, Mul(f, xi, Low(y, 8 * j)), Mul(f, xi, Shl(b, 8 * j)));
        assert HoldsProducts(f, i + j, tables[i + j]);
        accumulator := Xor(accumulator, tables[i + j][a + b]);
      }
      LowSmall(y, 32);
      LowSplit(x, 8 * i, 8);
      MulXorLeft(f, Low(x, 8 * i), xi, y);
    }
    LowSmall(x, 32);
  }

  lemma {:induction false} LowZeroes(x: nat, y: nat)
    ensures Low(x, 0) == 0 && Low(y, 0) == 0
  {}

  lemma {:induction false} SplitStep(f: Field, x: nat, y: nat, i: nat, j: nat)
    requires f.Valid() && f.w == 32 && i < 4 && j < 4
    ensures var xi, yj := Shl(Byte(x, i), 8 * i), Shl(Byte(y, j), 8 * j);
      Mul(f, xi, Low(y, 8 * j + 8)) == Xor(Mul(f, xi, Low(y, 8 * j)), Mul(f, xi, yj)) &&
      Mul(f, xi, yj) == Shifted(f, Mul(f, Byte(x, i), Byte(y, j)), 8 * (i + j))
  {
    hide Xor, Low, Bit, Mul, Shl, Shr;
    var xi, yj := Shl(Byte(x, i), 8 * i), Shl(Byte(y, j), 8 * j);
    ByteProducts(f, Byte(x, i), Byte(y, j), i, j);
    LowSplit(y, 8 * j, 8);
    Pow2Increasing(8 * j, 32);
    MulXorRight(f, xi, Low(y, 8 * j), yj);
  }

  /** The loops of galois_create_split_w8_tables: i = 0 fills tables 0 to 3, i = 3 fills tables 4 to 6. */
  method CreateTables(f: Field) returns (tables: seq<seq<nat>>)
    requires f.Valid() && f.w == 32
    ensures Ready(f, tables)
  {
    tables := seq(7, _ => []);
    var i := 0;
    while i < 4
      invariant i in {0, 3, 6} && |tables| == 7
      invariant forall t :: 0 <= t < (if i == 0 then 0 else i / 3 * 3 + 1) ==> HoldsProducts(f, t, tables[t])
    {
      for j := if i == 0 then 0 else 1 to 4
        invariant |tables| == 7
        invariant forall t :: 0 <= t < i + j ==> HoldsProducts(f, t, tables[t])
      {
        var table := CreateTable(f, i, j);
        tables := tables[i + j := table[..]];
      }
      i := i + 3;
    }
  }

  method CreateTable(f: Field, i: nat, j: nat) returns (table: array<nat>)
    requires f.Valid() && f.w == 32 && i < 4 && j < 4
    ensures fresh(table) && HoldsProducts(f, i + j, table[..])
  {
    hide Xor, Low, Bit, Mul, Shl, Shr, Shifted, Pow2;
    table := new nat[65536];
    var index := 0;
    Pow2Eight();
    for p1 := 0 to 256
      invariant index == 256 * p1
      invariant forall q1, q2 :: 0 <= q1 < p1 && 0 <= q2 < 256 ==>
        table[256 * q1 + q2] == Shifted(f, Mul(f, q1, q2), 8 * (i + j))
    {
      var p1elt := Shl(p1, 8 * i);
      for p2 := 0 to 256
        invariant index == 256 * p1 + p2
        invariant forall q1, q2 :: 0 <= q1 <= p1 && 0 <= q2 < 256 && 256 * q1 + q2 < index ==>
          table[256 * q1 + q2] == Shifted(f, Mul(f, q1, q2), 8 * (i + j))
      {
        var p2elt := Shl(p2, 8 * j);
        ByteProducts(f, p1, p2, i, j);
        table[index] := ShiftArithmetic.ShiftMultiply(f, p1elt, p2elt);
        index := index + 1;
      }
    }
  }
}
