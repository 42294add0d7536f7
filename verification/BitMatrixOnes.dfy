/** cauchy_n_ones: the number of ones in the w x w bit matrix of a word. */
module BitMatrixOnes {
  import opened Words
  import opened GaloisField
  import opened ShiftArithmetic

  /** The set bits among the first n. */
  function Ones(x: nat, n: nat): nat {
    if n == 0 then 0 else Ones(x, n - 1) + (if Bit(x, n - 1) then 1 else 0)
  }

  /** The ones in the columns x, x * 2, x * 4, ... of the bit matrix, n columns in all. */
  function MatrixOnes(f: Field, x: nat, n: nat): nat
    requires f.Valid()
  {
    if n == 0 then 0 else MatrixOnes(f, x, n - 1) + Ones(Shifted(f, x, n - 1), f.w)
  }

  /** The ones of the first n columns of the bit matrix of x: bit r of 2^c times x is row r, column c. */
  ghost function OneCells(f: Field, x: nat, n: nat): set<(nat, nat)>
    requires f.Valid()
  {
    set r: nat, c: nat | r < f.w && c < n && Bit(Mul(f, Pow2(c), x), r) :: (r, c)
  }

  /** The ones of column c among the first n rows. */
  ghost function ColumnCells(f: Field, x: nat, c: nat, n: nat): set<(nat, nat)>
    requires f.Valid()
  {
    set r: nat | r < n && Bit(Mul(f, Pow2(c), x), r) :: (r, c)
  }

  lemma {:induction false} ColumnCount(f: Field, x: nat, c: nat, n: nat)
    requires f.Valid()
    ensures |ColumnCells(f, x, c, n)| == Ones(Mul(f, Pow2(c), x), n)
  {
    hide Bit, Mul, Pow2;
    if n > 0 {
      ColumnCount(f, x, c, n - 1);
      var p := Mul(f, Pow2(c), x);
      assert ColumnCells(f, x, c, n) == ColumnCells(f, x, c, n - 1) + (if Bit(p, n - 1) then {(n - 1, c)} else {});
    }
  }

  lemma {:induction false} ColumnsCount(f: Field, x: nat, n: nat)
    requires f.Valid() && f.Has(x)
    ensures MatrixOnes(f, x, n) == |OneCells(f, x, n)|
  {
    hide Bit, Mul, Pow2, Shifted, Ones, OneCells, ColumnCells;
    if n == 0 {
      NoColumns(f, x);
    } else {
      ColumnsCount(f, x, n - 1);
      MulPow2(f, n - 1, x);
      ColumnCount(f, x, n - 1, f.w);
      LastColumn(f, x, n);
    }
  }

  lemma NoColumns(f: Field, x: nat)
    requires f.Valid()
    ensures OneCells(f, x, 0) == {}
  {}

  lemma {:induction false} LastColumn(f: Field, x: nat, n: nat)
    requires f.Valid() && n > 0
    ensures OneCells(f, x, n) == OneCells(f, x, n - 1) + ColumnCells(f, x, n - 1, f.w)
    ensures OneCells(f, x, n - 1) !! ColumnCells(f, x, n - 1, f.w)
  {
    hide Bit, Mul, Pow2;
  }

  /** MatrixOnes counts the ones of the bit matrix. */
  lemma {:induction false} MatrixOnesCounts(f: Field, x: nat)
    requires f.Valid() && f.Has(x)
    ensures MatrixOnes(f, x, f.w) == |set r: nat, c: nat | r < f.w && c < f.w && Bit(Mul(f, Pow2(c), x), r) :: (r, c)|
  {
    hide Bit, Mul, Pow2, MatrixOnes;
    ColumnsCount(f, x, f.w);
    assert OneCells(f, x, f.w) == set r: nat, c: nat | r < f.w && c < f.w && Bit(Mul(f, Pow2(c), x), r) :: (r, c);
  }

  /** The positions of the set bits among the first n, lowest first. */
  function Positions(x: nat, n: nat): (s: seq<nat>)
    ensures |s| <= n
  {
    if n == 0 then [] else Positions(x, n - 1) + (if Bit(x, n - 1) then [n - 1] else [])
  }

  /** What the flipped bits add to the running count: 1 for a bit now set, -1 for a bit now clear. */
  function Flips(x: nat, s: seq<nat>): int {
    if s == [] then 0 else Flips(x, s[..|s| - 1]) + (if Bit(x, s[|s| - 1]) then 1 else -1)
  }

  lemma {:induction false} FlipsExact(x: nat, p: nat, n: nat)
    ensures Ones(Xor(x, p), n) == Ones(x, n) + Flips(Xor(x, p), Positions(p, n))
  {
    hide Xor, Bit;
    if n > 0 {
      FlipsExact(x, p, n - 1);
      BitXor(x, p, n - 1);
      var q, s, s' := Xor(x, p), Positions(p, n), Positions(p, n - 1);
      if Bit(p, n - 1) {
        assert s == s' + [n - 1] && s[..|s| - 1] == s';
        assert Flips(q, s) == Flips(q, s') + (if Bit(q, n - 1) then 1 else -1);
      } else {
        assert s == s';
      }
    }
  }

  lemma {:induction false} OnesDouble(x: nat, n: nat)
    ensures Ones(2 * x, n + 1) == Ones(x, n)
  {
    if n > 0 {
      OnesDouble(x, n - 1);
      assert Bit(2 * x, n) == Bit(x, n - 1);
    }
  }

  lemma {:induction false} OnesOfTop(x: nat, n: nat, k: nat)
    requires k <= n
    ensures Ones(Xor(x, Pow2(n)), k) == Ones(x, k)
  {
    hide Xor, Pow2;
    if k > 0 {
      OnesOfTop(x, n, k - 1);
      BitXor(x, Pow2(n), k - 1);
      BitPow2(k - 1, n);
    }
  }

  /** Multiplying the top bit by 2 gives the reduction polynomial. */
  lemma {:induction false} TopTimesTwo(f: Field)
    requires f.Valid() && f.w >= 2
    ensures f.Has(2) && f.Has(Pow2(f.w - 1))
    ensures Mul(f, Pow2(f.w - 1), 2) == Step(f, Pow2(f.w - 1))
  {
    var h := Pow2(f.w - 1);
    assert Pow2(f.w) == 2 * h && h == 2 * Pow2(f.w - 2);
    BitPow2(f.w - 1, 0);
    assert Step(f, 1) == 2;
    MulStep(f, h, 1);
    MulOne(f, h);
  }

  /** One turn of the loop, top bit set: drop it, double, flip the bits of the polynomial. For w = 1
      the loop makes no turn. */
  lemma TurnWithTop(f: Field, n: nat)
    requires f.Valid() && f.w >= 2 && f.Has(n) && Bit(n, f.w - 1)
    ensures var h := Pow2(f.w - 1); var p := Mul(f, h, 2); var m := Xor(2 * Xor(n, h), p);
      m == Step(f, n) && Ones(m, f.w) == Ones(n, f.w) - 1 + Flips(m, Positions(p, f.w))
  {
    hide Xor, Mul, Shifted, Low;
    var h := Pow2(f.w - 1);
    var n1 := Xor(n, h);
    TopTimesTwo(f);
    XorBound(n, h, f.w);
    XorCancel(n, h);
    BitXor(n, h, f.w - 1);
    BitPow2(f.w - 1, f.w - 1);
    StepXor(f, n1, h);
    assert Step(f, n1) == 2 * n1;
    OnesOfTop(n, f.w - 1, f.w - 1);
    OnesDouble(n1, f.w - 1);
    FlipsExact(2 * n1, Mul(f, h, 2), f.w);
  }

  lemma {:induction false} TurnWithoutTop(f: Field, n: nat)
    requires f.Valid() && !Bit(n, f.w - 1)
    ensures Step(f, n) == 2 * n && Ones(2 * n, f.w) == Ones(n, f.w)
  {
    OnesDouble(n, f.w - 1);
  }

  /** What PPs[w] holds: the top bit times 2. For w = 1 the 2 is no word, and the lookup at (1 << 1) | 2
      in the product table finds row 1, column 0. */
  function TopProduct(f: Field): nat
    requires f.Valid()
  {
    if f.w == 1 then Mul(f, 1, 0) else Mul(f, Pow2(f.w - 1), 2)
  }

  /** PPs[w], NOs[w] and ONEs[w] for one word size; ONEs is kept as bit positions. */
  class Memo {
    const f: Field
    var pp: int
    var nones: nat
    const ones: array<nat>

    ghost predicate Valid()
      reads this, ones
    {
      f.Valid() && f.w <= 32 && ones.Length == 33 && nones <= 33 &&
      (pp != -1 ==> pp == TopProduct(f) && ones[..nones] == Positions(TopProduct(f), f.w))
    }

    constructor (f: Field)
      requires f.Valid() && f.w <= 32
      ensures Valid() && fresh(ones) && this.f == f
    {
      this.f := f;
      pp, nones := -1, 0;
      ones := new nat[33];
    }

    method Fill()
      requires Valid()
      modifies this, ones
      ensures Valid() && pp != -1
    {
      hide Mul, Bit, Pow2;
      var p := TopProduct(f);
      pp := p;
      nones := 0;
      for i := 0 to f.w
        invariant pp == p && nones <= i && ones[..nones] == Positions(p, i)
      {
        if Bit(p, i) {
          ones[nones] := i;
          nones := nones + 1;
        }
      }
    }

    /** The two counting loops of cauchy_n_ones. */
    method CountOnes(n0: nat) returns (no: nat)
      requires Valid() && f.Has(n0)
      modifies this, ones
      ensures Valid() && pp != -1 && no == MatrixOnes(f, n0, f.w)
    {
      hide Mul, Bit, Pow2, Xor, Shifted, Step, Low;
      if pp == -1 { Fill(); }
      ghost var p := TopProduct(f);
      no := 0;
      for i := 0 to f.w
        invariant no == Ones(n0, i) && pp == p && Valid()
      {
        if Bit(n0, i) { no := no + 1; }
      }
      var n := n0;
      var cno: int := no;
      ShiftedZero(f, n0);
      assert MatrixOnes(f, n0, 1) == MatrixOnes(f, n0, 0) + Ones(Shifted(f, n0, 0), f.w);
      for i := 1 to f.w
        invariant f.Has(n) && n == Shifted(f, n0, i - 1)
        invariant cno == Ones(n, f.w) && no == MatrixOnes(f, n0, i)
        invariant Valid() && pp == p
      {
        ghost var before, c := n, cno;
        ShiftedNext(f, n0, i);
        if Bit(n, f.w - 1) {
          TurnWithTop(f, n);
          n := Xor(n, Pow2(f.w - 1));
          n := 2 * n;
          n := Xor(n, pp);
          cno := cno - 1;
          for j := 0 to nones
            invariant cno == c - 1 + Flips(n, ones[..j])
            invariant Valid() && pp == p
          {
            assert ones[..j + 1][..j] == ones[..j];
            cno := cno + if Bit(n, ones[j]) then 1 else -1;
          }
        } else {
          TurnWithoutTop(f, n);
          n := 2 * n;
        }
        no := no + cno;
      }
    }

    /** cauchy_n_ones; what is in the memo beforehand does not matter. */
    method NOnes(n: nat) returns (no: nat)
      requires Valid() && f.Has(n)
      modifies this, ones
      ensures Valid() && pp != -1 && no == MatrixOnes(f, n, f.w)
      ensures no == |set r: nat, c: nat | r < f.w && c < f.w && Bit(Mul(f, Pow2(c), n), r) :: (r, c)|
    {
      hide Mul, Bit, Pow2, MatrixOnes, Positions;
      no := CountOnes(n);
      MatrixOnesCounts(f, n);
    }
  }

  lemma {:induction false} ShiftedZero(f: Field, x: nat)
    requires f.Valid()
    ensures Shifted(f, x, 0) == x
  {}

  lemma ShiftedNext(f: Field, x: nat, i: nat)
    requires f.Valid() && f.Has(x) && i > 0
    ensures Shifted(f, x, i) == Step(f, Shifted(f, x, i - 1)) && f.Has(Shifted(f, x, i))
  {
    ShiftedHas(f, x, i);
  }
}
