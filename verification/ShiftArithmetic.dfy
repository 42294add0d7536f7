/** The table-free operations of galois.c: galois_shift_multiply, _inverse and _divide. */
module ShiftArithmetic {
  import opened Words
  import opened GaloisField
  import opened BinaryMatrix

  /** The rows y, y*x, y*x^2, ... that both routines write into a scratch array. */
  ghost predicate HoldsShifts(f: Field, y: nat, rows: seq<nat>)
    requires f.Valid()
  {
    |rows| == f.w && forall i :: 0 <= i < f.w ==> rows[i] == Shifted(f, y, i)
  }

  lemma {:induction false} MulPow2(f: Field, i: nat, y: nat)
    requires f.Valid() && f.Has(y)
    ensures Mul(f, Pow2(i), y) == Shifted(f, y, i)
  {
    if i == 0 {
      XorZero(y);
      assert Mul(f, 1, y) == Xor(y, Mul(f, 0, Step(f, y)));
    } else {
      StepForm(f, y);
      MulPow2(f, i - 1, Step(f, y));
      ShiftedAdd(f, y, 1, i - 1);
      assert Shifted(f, y, 1) == Step(f, Shifted(f, y, 0));
      XorZero(Mul(f, Pow2(i - 1), Step(f, y)));
    }
  }

  lemma {:induction false} MulLow(f: Field, x: nat, y: nat, rows: seq<nat>, n: nat)
    requires f.Valid() && f.Has(y) && HoldsShifts(f, y, rows) && n <= f.w
    ensures Mul(f, Low(x, n), y) == Combine(x, rows, n)
  {
    hide Xor, Bit;
    if n == 0 {
      MulZero(f, y);
    } else {
      hide Low, Mul, Pow2, Shifted;
      MulLow(f, x, y, rows, n - 1);
      MulZero(f, y);
      LowStep(x, n - 1);
      MulXorLeft(f, Low(x, n - 1), BitWord(x, n - 1), y);
      MulPow2(f, n - 1, y);
    }
  }

  /** Multiplying by y is multiplying by the matrix of its shifts. */
  lemma {:induction false} MulIsCombine(f: Field, x: nat, y: nat, rows: seq<nat>)
    requires f.Valid() && f.Has(x) && f.Has(y) && HoldsShifts(f, y, rows)
    ensures Mul(f, x, y) == Combine(x, rows, f.w)
  {
    MulLow(f, x, y, rows, f.w);
    LowSmall(x, f.w);
  }

  /** Fills an array with the shifts of y. */
  method FillShifts(f: Field, y: nat) returns (rows: array<nat>)
    requires f.Valid() && f.Has(y)
    ensures fresh(rows) && HoldsShifts(f, y, rows[..])
  {
    hide Xor, Low, Bit;
    rows := new nat[f.w];
    var z := y;
    for i := 0 to f.w
      invariant z == Shifted(f, y, i)
      invariant forall j :: 0 <= j < i ==> rows[j] == Shifted(f, y, j)
    {
      rows[i] := z;
      if Bit(z, f.w - 1) {
        z := 2 * z;
        z := Low(Xor(z, f.poly), f.w);
      } else {
        z := 2 * z;
      }
    }
  }

  method ShiftMultiply(f: Field, x: nat, y: nat) returns (prod: nat)
    requires f.Valid() && f.Has(x) && f.Has(y)
    ensures prod == Mul(f, x, y)
  {
    hide Xor, Low, Bit, Mul;
    prod := 0;
    var scratch := FillShifts(f, y);
    ghost var rows := scratch[..];
    for i := 0 to f.w
      invariant scratch[..] == rows
      invariant prod == Combine(x, rows, i)
    {
      ShiftedHas(f, y, i);
      LowSmall(rows[i], f.w);
      if Bit(x, i) {
        ghost var before := prod;
        XorZero(before);
        LowZero(rows[i]);
        for k := 0 to f.w
          invariant scratch[..] == rows
          invariant prod == Xor(before, Low(rows[i], k))
        {
          LowStep(rows[i], k);
          XorAssoc(before, Low(rows[i], k), BitWord(rows[i], k));
          prod := Xor(prod, BitWord(scratch[i], k));
        }
      } else {
        XorZero(prod);
      }
    }
    MulIsCombine(f, x, y, rows);
  }

  lemma {:induction false} LowZero(x: nat)
    ensures Low(x, 0) == 0
  {}

  /** A left inverse of the shifts of y holds the inverse of y in its first row. */
  lemma {:induction false} FirstRowInverts(f: Field, y: nat, rows: seq<nat>, v: seq<nat>)
    requires f.Valid() && f.Has(y) && HoldsShifts(f, y, rows)
    requires |v| == f.w && IsInverse(v, rows, f.w) && Bounded(v, f.w)
    ensures Mul(f, v[0], y) == 1
  {
    var p := Combine(v[0], rows, f.w);
    MulIsCombine(f, v[0], y, rows);
    forall i | 0 <= i < f.w
      ensures rows[i] < Pow2(f.w)
    {
      ShiftedHas(f, y, i);
    }
    CombineBound(v[0], rows, f.w, f.w);
    forall i: nat | i < f.w
      ensures Bit(p, i) == Bit(1, i)
    {
      BitPow2(i, 0);
    }
    SameBits(p, 1, f.w);
  }

  /** If y has an inverse, the matrix of its shifts is regular. */
  lemma InvertibleIsRegular(f: Field, y: nat, rows: seq<nat>)
    requires f.Valid() && HoldsShifts(f, y, rows) && Invertible(f, y)
    ensures !Singular(rows, f.w)
  {
    var z :| f.Has(z) && Mul(f, z, y) == 1;
    forall x | 0 < x < Pow2(f.w)
      ensures !InKernel(rows, x, f.w)
    {
      if InKernel(rows, x, f.w) {
        var j := NonzeroHasBit(x, f.w);
        var u := Mul(f, Pow2(j), z);
        Pow2Increasing(j, f.w);
        MulHas(f, Pow2(j), z);
        MulAssoc(f, Pow2(j), z, y);
        MulOne(f, Pow2(j));
        MulIsCombine(f, u, y, rows);
        DotCombine(u, rows, f.w, x, f.w);
        forall i: nat ensures Bit(Pow2(j), i) <==> i == j { BitPow2(i, j); }
        DotUnit(Pow2(j), j, x, f.w);
      }
    }
  }

  datatype Result = Ok(value: int) | Exit

  /** Inverts y by inverting the matrix of its shifts; it exits exactly when y has no inverse. */
  method ShiftInverse(f: Field, y: nat) returns (r: Result)
    requires f.Valid() && f.Has(y)
    ensures r.Ok? <==> Invertible(f, y)
    ensures r.Ok? ==> r.value >= 0 && f.Has(r.value) && Mul(f, r.value, y) == 1
  {
    var mat2 := FillShifts(f, y);
    var inv2 := new nat[f.w];
    ghost var rows := mat2[..];
    if Invertible(f, y) { InvertibleIsRegular(f, y, rows); }
    var ok := InvertBinaryMatrix(mat2, inv2, f.w);
    if !ok { return Exit; }
    FirstRowInverts(f, y, rows, inv2[..]);
    r := Ok(inv2[0]);
  }

  method ShiftDivide(f: Field, a: nat, b: nat) returns (r: Result)
    requires f.Valid() && f.Has(a) && f.Has(b)
    ensures b == 0 ==> r == Ok(-1)
    ensures b != 0 && a == 0 ==> r == Ok(0)
    ensures b != 0 && a != 0 ==> (r.Ok? <==> Invertible(f, b))
    ensures b != 0 && r.Ok? ==> r.value >= 0 && f.Has(r.value) && Mul(f, r.value, b) == a
  {
    if b == 0 { return Ok(-1); }
    MulZero(f, b);
    if a == 0 { return Ok(0); }
    r := ShiftInverse(f, b);
    if r.Exit? { return; }
    var inverse: nat := r.value;
    var z := ShiftMultiply(f, a, inverse);
    MulHas(f, a, inverse);
    MulAssoc(f, a, inverse, b);
    MulOne(f, a);
    r := Ok(z);
  }
}
