/** Elimination and normalisation keep the code of the extended Vandermonde matrix, and the normal
    form singles out one matrix of that code. */
module VandermondeCode {
  import opened Words
  import opened Counting
  import opened GaloisField
  import opened Vectors
  import opened Matrices
  import opened Distribution

  /** The polynomial u at the point of device r: its value at r, for the last device its leading coefficient. */
  function AtPoint(f: Field, rows: nat, u: seq<nat>, r: nat): nat
    requires f.Valid() && |u| > 0
  {
    if r < rows - 1 then Eval(f, u, r) else u[|u| - 1]
  }

  /** The linear map with matrix t. */
  function Image(f: Field, t: seq<seq<nat>>, v: seq<nat>): (u: seq<nat>)
    requires f.Valid() && forall i :: 0 <= i < |t| ==> |t[i]| == |v|
    ensures |u| == |t|
  {
    seq(|t|, i requires 0 <= i < |t| => Dot(f, t[i], v))
  }

  /** Device r stores d_r times the value at its point of the polynomial t * data. */
  ghost predicate Evaluates(f: Field, m: seq<seq<nat>>, rows: nat, cols: nat, t: seq<seq<nat>>, d: seq<nat>)
    requires f.Valid()
  {
    0 < cols < rows <= Pow2(f.w) + 1 && Matrix(f, m, rows, cols) && Matrix(f, t, cols, cols) && Vector(f, d, rows) &&
    (forall r :: 0 <= r < rows ==> d[r] != 0) &&
    forall v, r :: Vector(f, v, cols) && 0 <= r < rows ==> Dot(f, m[r], v) == Mul(f, d[r], AtPoint(f, rows, Image(f, t, v), r))
  }

  ghost predicate IsVandermondeCode(f: Field, m: seq<seq<nat>>, rows: nat, cols: nat)
    requires f.Valid()
  {
    exists t, d :: Evaluates(f, m, rows, cols, t, d)
  }

  lemma ImageVector(f: Field, t: seq<seq<nat>>, v: seq<nat>, cols: nat)
    requires f.Valid() && Matrix(f, t, cols, cols) && Vector(f, v, cols)
    ensures Vector(f, Image(f, t, v), cols)
  {
    hide Dot;
    forall i | 0 <= i < cols
      ensures f.Has(Image(f, t, v)[i])
    {
      DotHas(f, t[i], v);
    }
  }

  // ---------- the Vandermonde matrix ----------

  function Units(cols: nat): (t: seq<seq<nat>>)
    ensures |t| == cols
  {
    seq(cols, i requires 0 <= i < cols => Unit(i, cols))
  }

  lemma VandermondeEvaluates(f: Field, rows: nat, cols: nat)
    requires IsField(f) && 0 < cols < rows <= Pow2(f.w) + 1
    ensures IsVandermondeCode(f, Vandermonde(f, rows, cols), rows, cols)
  {
    hide Mul, Dot, Eval, Xor;
    var m, t, d := Vandermonde(f, rows, cols), Units(cols), seq(rows, _ => 1);
    VandermondeMatrix(f, rows, cols);
    forall i | 0 <= i < cols
      ensures Vector(f, t[i], cols)
    {
      UnitVector(f, i, cols);
    }
    OneIsWord(f);
    forall v, r | Vector(f, v, cols) && 0 <= r < rows
      ensures Dot(f, m[r], v) == Mul(f, d[r], AtPoint(f, rows, Image(f, t, v), r))
    {
      forall i | 0 <= i < cols
        ensures Image(f, t, v)[i] == v[i]
      {
        DotUnit(f, v, i, cols);
      }
      assert Image(f, t, v) == v;
      PointHas(f, rows, v, r);
      MulOne(f, AtPoint(f, rows, v, r));
      if r < rows - 1 { RowEvaluates(f, rows, cols, r, v); } else { DotUnit(f, v, cols - 1, cols); }
    }
    assert Evaluates(f, m, rows, cols, t, d);
  }

  lemma OneIsWord(f: Field)
    requires f.Valid()
    ensures f.Has(1)
  {
    assert Pow2(f.w) == 2 * Pow2(f.w - 1);
  }

  // ---------- row and column operations ----------

  lemma ScaleColumnEvaluates(f: Field, m: seq<seq<nat>>, rows: nat, cols: nat, i: nat, s: nat)
    requires IsField(f) && IsVandermondeCode(f, m, rows, cols) && Matrix(f, m, rows, cols) && i < cols && f.Has(s)
    ensures IsVandermondeCode(f, ScaleColumn(f, m, 0, i, s), rows, cols)
  {
    hide Mul, Dot, Eval, Xor;
    var t, d :| Evaluates(f, m, rows, cols, t, d);
    var m', t' := ScaleColumn(f, m, 0, i, s), ScaleColumn(f, t, 0, i, s);
    ScaleColumnMatrix(f, m, rows, cols, i, s);
    ScaleColumnMatrix(f, t, cols, cols, i, s);
    forall v, r | Vector(f, v, cols) && 0 <= r < rows
      ensures Dot(f, m'[r], v) == Mul(f, d[r], AtPoint(f, rows, Image(f, t', v), r))
    {
      var v' := ScaleEntry(f, v, i, s);
      ScaleRowOfColumn(f, m[r], v, i, s);
      forall l | 0 <= l < cols
        ensures Image(f, t', v)[l] == Image(f, t, v')[l]
      {
        ScaleRowOfColumn(f, t[l], v, i, s);
      }
      assert Image(f, t', v) == Image(f, t, v');
    }
    assert Evaluates(f, m', rows, cols, t', d);
  }

  lemma AddColumnEvaluates(f: Field, m: seq<seq<nat>>, rows: nat, cols: nat, i: nat, j: nat, e: nat)
    requires IsField(f) && IsVandermondeCode(f, m, rows, cols) && Matrix(f, m, rows, cols)
    requires i < cols && j < cols && i != j && f.Has(e)
    ensures IsVandermondeCode(f, AddColumn(f, m, i, j, e), rows, cols)
  {
    hide Mul, Dot, Eval, Xor;
    var t, d :| Evaluates(f, m, rows, cols, t, d);
    var m', t' := AddColumn(f, m, i, j, e), AddColumn(f, t, i, j, e);
    AddColumnMatrix(f, m, rows, cols, i, j, e);
    AddColumnMatrix(f, t, cols, cols, i, j, e);
    forall v, r | Vector(f, v, cols) && 0 <= r < rows
      ensures Dot(f, m'[r], v) == Mul(f, d[r], AtPoint(f, rows, Image(f, t', v), r))
    {
      var v' := AddEntry(f, v, i, j, e);
      AddRowOfColumn(f, m[r], v, i, j, e);
      forall l | 0 <= l < cols
        ensures Image(f, t', v)[l] == Image(f, t, v')[l]
      {
        AddRowOfColumn(f, t[l], v, i, j, e);
      }
      assert Image(f, t', v) == Image(f, t, v');
    }
    assert Evaluates(f, m', rows, cols, t', d);
  }

  lemma AddColumnMatrix(f: Field, m: seq<seq<nat>>, rows: nat, cols: nat, i: nat, j: nat, e: nat)
    requires f.Valid() && Matrix(f, m, rows, cols) && i < cols && j < cols && f.Has(e)
    ensures Matrix(f, AddColumn(f, m, i, j, e), rows, cols)
  {
    hide Mul, Xor;
    forall r | 0 <= r < rows
      ensures Vector(f, AddColumn(f, m, i, j, e)[r], cols)
    {
      MulHas(f, e, m[r][i]);
      XorBound(m[r][j], Mul(f, e, m[r][i]), f.w);
    }
  }

  lemma ScaleRowEvaluates(f: Field, m: seq<seq<nat>>, rows: nat, cols: nat, i: nat, s: nat)
    requires IsField(f) && IsVandermondeCode(f, m, rows, cols) && Matrix(f, m, rows, cols) && i < rows && f.Has(s) && s != 0
    ensures IsVandermondeCode(f, ScaleRow(f, m, i, s), rows, cols)
  {
    hide Mul, Dot, Eval, Xor;
    var t, d :| Evaluates(f, m, rows, cols, t, d);
    var m', d' := ScaleRow(f, m, i, s), d[i := Mul(f, s, d[i])];
    MulHas(f, s, d[i]);
    forall j | 0 <= j < cols
      ensures f.Has(m'[i][j])
    {
      MulHas(f, s, m[i][j]);
    }
    forall v, r | Vector(f, v, cols) && 0 <= r < rows
      ensures Dot(f, m'[r], v) == Mul(f, d'[r], AtPoint(f, rows, Image(f, t, v), r))
    {
      if r == i {
        DotScale(f, m[i], v, s);
        ImageVector(f, t, v, cols);
        PointHas(f, rows, Image(f, t, v), i);
        MulAssoc(f, s, d[i], AtPoint(f, rows, Image(f, t, v), i));
      }
    }
    assert Evaluates(f, m', rows, cols, t, d');
  }

  lemma PointHas(f: Field, rows: nat, u: seq<nat>, r: nat)
    requires f.Valid() && |u| > 0 && Vector(f, u, |u|) && (r < rows - 1 ==> f.Has(r))
    ensures f.Has(AtPoint(f, rows, u, r))
  {
    if r < rows - 1 { EvalHas(f, u, r); }
  }

  /** Below unit rows scaling a column is scaling it everywhere and then restoring its unit row. */
  lemma ScaleLowerEvaluates(f: Field, m: seq<seq<nat>>, rows: nat, cols: nat, j: nat, s: nat)
    requires IsField(f) && IsVandermondeCode(f, m, rows, cols) && Matrix(f, m, rows, cols) && UnitRows(m, cols, cols)
    requires j < cols < rows && f.Has(s) && s != 0
    ensures IsVandermondeCode(f, ScaleColumn(f, m, cols, j, s), rows, cols)
  {
    hide Mul, Dot, Eval, Xor, IsVandermondeCode;
    var whole, q := ScaleColumn(f, m, 0, j, s), Quotient(f, 1, s);
    OneIsWord(f);
    QuotientNonzero(f, 1, s);
    ScaleColumnEvaluates(f, m, rows, cols, j, s);
    ScaleColumnMatrix(f, m, rows, cols, j, s);
    ScaleRowEvaluates(f, whole, rows, cols, j, q);
    var lower, back := ScaleColumn(f, m, cols, j, s), ScaleRow(f, whole, j, q);
    MulOne(f, s);
    MulZero(f, s);
    MulZero(f, q);
    forall r | 0 <= r < rows
      ensures lower[r] == back[r]
    {
      if r < cols { assert UnitRow(m, r, cols); }
    }
    assert lower == back;
  }

  // ---------- the whole construction ----------

  lemma {:induction false} ClearRowEvaluates(f: Field, m: seq<seq<nat>>, rows: nat, cols: nat, i: nat, n: nat)
    requires IsField(f) && IsVandermondeCode(f, m, rows, cols) && Matrix(f, m, rows, cols) && i < rows && i < cols && n <= cols
    ensures IsVandermondeCode(f, ClearRow(f, m, i, n), rows, cols)
  {
    hide Mul, Xor, IsVandermondeCode, AddColumn;
    if n > 0 {
      ClearRowEvaluates(f, m, rows, cols, i, n - 1);
      ClearRowMatrix(f, m, rows, cols, i, n - 1);
      var r := ClearRow(f, m, i, n - 1);
      if n - 1 != i { AddColumnEvaluates(f, r, rows, cols, i, n - 1, r[i][n - 1]); }
    }
  }

  lemma StageEvaluates(f: Field, m: seq<seq<nat>>, rows: nat, cols: nat, i: nat)
    requires IsField(f) && i < cols < rows && Ready(f, m, rows, cols, i) && IsVandermondeCode(f, m, rows, cols)
    ensures Stage(f, m, rows, cols, i).Some? && IsVandermondeCode(f, Stage(f, m, rows, cols, i).value, rows, cols)
  {
    hide Mul, Xor, IsVandermondeCode, ClearRow, MDS, Leading;
    PivotInPlace(f, m, rows, cols, i);
    assert SwapRows(m, i, i) == m;
    var t := Quotient(f, 1, m[i][i]);
    ScaleColumnEvaluates(f, m, rows, cols, i, t);
    ScaleColumnMatrix(f, m, rows, cols, i, t);
    ClearRowEvaluates(f, ScaleColumn(f, m, 0, i, t), rows, cols, i, cols);
  }

  lemma {:induction false} StagesEvaluate(f: Field, rows: nat, cols: nat, n: nat)
    requires IsField(f) && 1 <= n <= cols < rows <= Pow2(f.w) + 1
    ensures Stages(f, rows, cols, n).Some? && IsVandermondeCode(f, Stages(f, rows, cols, n).value, rows, cols)
  {
    hide Mul, Xor, IsVandermondeCode, Stage, Ready, Vandermonde, Pow2, IsField;
    if n == 1 {
      VandermondeEvaluates(f, rows, cols);
    } else {
      StagesReady(f, rows, cols, n - 1);
      StagesEvaluate(f, rows, cols, n - 1);
      StageEvaluates(f, Stages(f, rows, cols, n - 1).value, rows, cols, n - 1);
    }
  }

  lemma {:induction false} NormalizeColumnsEvaluates(f: Field, m: seq<seq<nat>>, rows: nat, cols: nat, n: nat)
    requires IsField(f) && Systematic(f, m, rows, cols) && n <= cols < rows && IsVandermondeCode(f, m, rows, cols)
    requires forall j :: 0 <= j < cols ==> m[cols][j] != 0
    ensures IsVandermondeCode(f, NormalizeColumns(f, m, rows, cols, n), rows, cols)
  {
    hide Mul, Xor, IsVandermondeCode, MDS, UnitRows, ScaleColumn;
    if n > 0 {
      NormalizeColumnsEvaluates(f, m, rows, cols, n - 1);
      NormalizeColumnsCorrect(f, m, rows, cols, n - 1);
      var r := NormalizeColumns(f, m, rows, cols, n - 1);
      OneIsWord(f);
      QuotientNonzero(f, 1, r[cols][n - 1]);
      ScaleLowerEvaluates(f, r, rows, cols, n - 1, Quotient(f, 1, r[cols][n - 1]));
    }
  }

  lemma {:induction false} NormalizeRowsEvaluates(f: Field, m: seq<seq<nat>>, rows: nat, cols: nat, n: nat)
    requires IsField(f) && Systematic(f, m, rows, cols) && 0 < cols < n <= rows && IsVandermondeCode(f, m, rows, cols)
    requires forall i :: cols < i < rows ==> m[i][0] != 0
    ensures IsVandermondeCode(f, NormalizeRows(f, m, rows, cols, n), rows, cols)
    decreases n
  {
    hide Mul, Xor, IsVandermondeCode, MDS, UnitRows, ScaleRow;
    if n > cols + 1 {
      NormalizeRowsEvaluates(f, m, rows, cols, n - 1);
      NormalizeRowsCorrect(f, m, rows, cols, n - 1);
      var r := NormalizeRows(f, m, rows, cols, n - 1);
      OneIsWord(f);
      QuotientNonzero(f, 1, r[n - 1][0]);
      ScaleRowEvaluates(f, r, rows, cols, n - 1, Quotient(f, 1, r[n - 1][0]));
    }
  }

  /** The distribution matrix still codes like the extended Vandermonde matrix. */
  lemma DistributionEvaluates(f: Field, rows: nat, cols: nat)
    requires IsField(f) && 0 < cols < rows <= Pow2(f.w) + 1
    ensures IsVandermondeCode(f, DistributionMatrix(f, rows, cols), rows, cols)
  {
    hide Mul, Xor, IsVandermondeCode, MDS, UnitRows, Pow2, NormalizeColumns, NormalizeRows;
    StagesReady(f, rows, cols, cols);
    StagesEvaluate(f, rows, cols, cols);
    var m := Stages(f, rows, cols, cols).value;
    NormalizeColumnsCorrect(f, m, rows, cols, cols);
    NormalizeColumnsEvaluates(f, m, rows, cols, cols);
    var c := NormalizeColumns(f, m, rows, cols, cols);
    NormalizeRowsCorrect(f, c, rows, cols, rows);
    NormalizeRowsEvaluates(f, c, rows, cols, rows);
  }

  /** An injective linear map turns the data into a polynomial; every device but the last stores a fixed
      nonzero multiple of its value at the device number, the last one of its leading coefficient. */
  lemma DistributionCode(f: Field, rows: nat, cols: nat) returns (t: seq<seq<nat>>, d: seq<nat>)
    requires IsField(f) && 0 < cols < rows <= Pow2(f.w) + 1
    ensures Matrix(f, t, cols, cols) && Vector(f, d, rows) && forall r :: 0 <= r < rows ==> d[r] != 0
    ensures forall v, r :: Vector(f, v, cols) && 0 <= r < rows - 1 ==>
      Dot(f, DistributionMatrix(f, rows, cols)[r], v) == Mul(f, d[r], Eval(f, Image(f, t, v), r))
    ensures forall v :: Vector(f, v, cols) ==>
      Dot(f, DistributionMatrix(f, rows, cols)[rows - 1], v) == Mul(f, d[rows - 1], Image(f, t, v)[cols - 1])
    ensures forall u, v :: Vector(f, u, cols) && Vector(f, v, cols) && Image(f, t, u) == Image(f, t, v) ==> u == v
  {
    hide Mul, Dot, Eval, Xor, MDS, DistributionMatrix, Pow2;
    DistributionEvaluates(f, rows, cols);
    DistributionCorrect(f, rows, cols);
    var m := DistributionMatrix(f, rows, cols);
    t, d :| Evaluates(f, m, rows, cols, t, d);
    forall u, v | Vector(f, u, cols) && Vector(f, v, cols) && Image(f, t, u) == Image(f, t, v)
      ensures u == v
    {
      forall r | 0 <= r < cols
        ensures u[r] == v[r]
      {
        assert UnitRow(m, r, cols);
        DotUnit(f, u, r, cols);
        DotUnit(f, v, r, cols);
        assert Dot(f, m[r], u) == Dot(f, m[r], v);
      }
    }
  }

  // ---------- the normal form is unique ----------

  lemma {:induction false} PointScale(f: Field, rows: nat, u: seq<nat>, c: nat, r: nat)
    requires f.Valid() && |u| > 0 && Vector(f, u, |u|) && f.Has(c) && (r < rows - 1 ==> f.Has(r))
    ensures Vector(f, Scale(f, u, c), |u|)
    ensures AtPoint(f, rows, Scale(f, u, c), r) == Mul(f, c, AtPoint(f, rows, u, r))
  {
    hide Mul, Eval;
    forall i | 0 <= i < |u|
      ensures f.Has(Scale(f, u, c)[i])
    {
      MulHas(f, c, u[i]);
    }
    if r < rows - 1 { EvalScale(f, u, c, r); }
  }

  lemma PointSum(f: Field, rows: nat, u: seq<nat>, v: seq<nat>, r: nat)
    requires f.Valid() && |u| > 0 && Vector(f, u, |u|) && Vector(f, v, |u|) && (r < rows - 1 ==> f.Has(r))
    ensures Vector(f, Sum(u, v), |u|)
    ensures AtPoint(f, rows, Sum(u, v), r) == Xor(AtPoint(f, rows, u, r), AtPoint(f, rows, v, r))
  {
    hide Mul, Eval, Xor;
    forall i | 0 <= i < |u|
      ensures f.Has(Sum(u, v)[i])
    {
      XorBound(u[i], v[i], f.w);
    }
    if r < rows - 1 { EvalSum(f, u, v, r); }
  }

  /** A polynomial that vanishes at the first cols points vanishes at all of them. */
  lemma VanishesEverywhere(f: Field, rows: nat, cols: nat, z: seq<nat>, r: nat)
    requires IsField(f) && 0 < cols < rows <= Pow2(f.w) + 1 && Vector(f, z, cols) && r < rows
    requires forall l: nat :: l < cols ==> AtPoint(f, rows, z, l) == 0
    ensures AtPoint(f, rows, z, r) == 0
  {
    hide Mul, Eval, Xor;
    forall l: nat | l < cols
      ensures Eval(f, z, l) == 0
    {
      assert AtPoint(f, rows, z, l) == 0;
    }
    FirstPoints(f, z, cols);
    if r < rows - 1 { EvalZero(f, z, r); }
  }

  lemma {:induction false} FirstPoints(f: Field, z: seq<nat>, cols: nat)
    requires IsField(f) && 0 < cols <= Pow2(f.w) && Vector(f, z, cols)
    requires forall l: nat :: l < cols ==> Eval(f, z, l) == 0
    ensures Zero(z)
  {
    hide Eval;
    TooManyRoots(f, z, FirstRows(cols));
  }

  /** The column of a unit row, in the two codes. */
  lemma {:induction false} ColumnPoints(f: Field, m: seq<seq<nat>>, rows: nat, cols: nat, t: seq<seq<nat>>, d: seq<nat>, j: nat)
    requires IsField(f) && Evaluates(f, m, rows, cols, t, d) && UnitRows(m, cols, cols) && j < cols
    ensures Vector(f, Image(f, t, Unit(j, cols)), cols)
    ensures forall r: nat :: r < rows ==> m[r][j] == Mul(f, d[r], AtPoint(f, rows, Image(f, t, Unit(j, cols)), r))
    ensures forall r: nat :: r < cols && r != j ==> AtPoint(f, rows, Image(f, t, Unit(j, cols)), r) == 0
    ensures Mul(f, d[j], AtPoint(f, rows, Image(f, t, Unit(j, cols)), j)) == 1
  {
    hide Mul, Eval, Xor, Dot;
    var e, w := Unit(j, cols), Image(f, t, Unit(j, cols));
    UnitVector(f, j, cols);
    ImageVector(f, t, e, cols);
    forall r: nat | r < rows
      ensures m[r][j] == Mul(f, d[r], AtPoint(f, rows, w, r))
    {
      DotUnit(f, m[r], j, cols);
    }
    forall r: nat | r < cols
      ensures m[r][j] == (if r == j then 1 else 0)
    {
      assert UnitRow(m, r, cols);
    }
    forall r: nat | r < cols && r != j
      ensures AtPoint(f, rows, w, r) == 0
    {
      PointHas(f, rows, w, r);
      assert Mul(f, d[r], AtPoint(f, rows, w, r)) == 0;
    }
  }

  /** The columns of two such matrices are proportional as polynomials. */
  lemma {:induction false} ColumnsAgree(f: Field, m: seq<seq<nat>>, m': seq<seq<nat>>, rows: nat, cols: nat,
      t: seq<seq<nat>>, d: seq<nat>, t': seq<seq<nat>>, d': seq<nat>, r: nat, j: nat)
    requires IsField(f) && Evaluates(f, m, rows, cols, t, d) && UnitRows(m, cols, cols)
    requires Evaluates(f, m', rows, cols, t', d') && UnitRows(m', cols, cols) && j < cols && r < rows
    ensures Mul(f, d[j], AtPoint(f, rows, Image(f, t, Unit(j, cols)), r)) ==
      Mul(f, d'[j], AtPoint(f, rows, Image(f, t', Unit(j, cols)), r))
  {
    hide Mul, Eval, Xor, Dot, AtPoint, UnitRows;
    var w, w' := Image(f, t, Unit(j, cols)), Image(f, t', Unit(j, cols));
    ColumnPoints(f, m, rows, cols, t, d, j);
    ColumnPoints(f, m', rows, cols, t', d', j);
    PointScale(f, rows, w, d[j], r);
    PointScale(f, rows, w', d'[j], r);
    var x, x' := Scale(f, w, d[j]), Scale(f, w', d'[j]);
    var z := Sum(x, x');
    PointSum(f, rows, x, x', r);
    forall l: nat | l < cols
      ensures AtPoint(f, rows, z, l) == 0
    {
      PointScale(f, rows, w, d[j], l);
      PointScale(f, rows, w', d'[j], l);
      PointSum(f, rows, x, x', l);
      MulZero(f, d[j]);
      MulZero(f, d'[j]);
      XorZero(0);
      XorZero(1);
    }
    VanishesEverywhere(f, rows, cols, z, r);
    XorZeroIsEqual(AtPoint(f, rows, x, r), AtPoint(f, rows, x', r));
  }

  /** (a b) (c e) = (a e) (c b). */
  lemma {:induction false} MulSwap(f: Field, a: nat, b: nat, c: nat, e: nat)
    requires f.Valid() && f.Has(a) && f.Has(b) && f.Has(c) && f.Has(e)
    ensures Mul(f, Mul(f, a, b), Mul(f, c, e)) == Mul(f, Mul(f, a, e), Mul(f, c, b))
  {
    hide Mul;
    MulHas(f, c, e);
    MulHas(f, c, b);
    MulAssoc(f, a, b, Mul(f, c, e));
    MulAssoc(f, a, e, Mul(f, c, b));
    MulExchange(f, b, c, e);
    MulExchange(f, e, c, b);
    MulComm(f, b, e);
  }

  /** Entry by entry: m_rj d_j d'_r = m'_rj d'_j d_r. */
  lemma {:induction false} EntriesAgree(f: Field, m: seq<seq<nat>>, m': seq<seq<nat>>, rows: nat, cols: nat,
      t: seq<seq<nat>>, d: seq<nat>, t': seq<seq<nat>>, d': seq<nat>, r: nat, j: nat)
    requires IsField(f) && Evaluates(f, m, rows, cols, t, d) && UnitRows(m, cols, cols)
    requires Evaluates(f, m', rows, cols, t', d') && UnitRows(m', cols, cols) && j < cols && r < rows
    ensures Mul(f, m[r][j], Mul(f, d'[r], d[j])) == Mul(f, m'[r][j], Mul(f, d[r], d'[j]))
  {
    hide Mul, Eval, Xor, Dot, AtPoint, UnitRows;
    var w, w' := Image(f, t, Unit(j, cols)), Image(f, t', Unit(j, cols));
    var p, p' := AtPoint(f, rows, w, r), AtPoint(f, rows, w', r);
    ColumnPoints(f, m, rows, cols, t, d, j);
    ColumnPoints(f, m', rows, cols, t', d', j);
    ColumnsAgree(f, m, m', rows, cols, t, d, t', d', r, j);
    PointHas(f, rows, w, r);
    PointHas(f, rows, w', r);
    // (d_r p) (d'_r d_j) = (d_r d_j) (d'_r p), and d_j p = d'_j p'
    MulSwap(f, d[r], p, d'[r], d[j]);
    MulSwap(f, d'[r], p', d[r], d'[j]);
    MulSwap(f, d[r], d[j], d'[r], p);
    Regroup(f, d[r], p, d'[r], d[j]);
    Regroup(f, d'[r], p', d[r], d'[j]);
    MulComm(f, d[r], d'[r]);
  }

  /** (a b) (c e) = (a c) (e b). */
  lemma {:induction false} Regroup(f: Field, a: nat, b: nat, c: nat, e: nat)
    requires f.Valid() && f.Has(a) && f.Has(b) && f.Has(c) && f.Has(e)
    ensures Mul(f, Mul(f, a, b), Mul(f, c, e)) == Mul(f, Mul(f, a, c), Mul(f, e, b))
  {
    hide Mul;
    MulSwap(f, a, b, e, c);
    MulComm(f, c, e);
  }

  /** Two systematic matrices of the code in normal form are the same. */
  lemma NormalFormUnique(f: Field, m: seq<seq<nat>>, m': seq<seq<nat>>, rows: nat, cols: nat)
    requires IsField(f) && IsVandermondeCode(f, m, rows, cols) && UnitRows(m, cols, cols)
    requires Matrix(f, m, rows, cols) && NormalForm(m, rows, cols)
    requires IsVandermondeCode(f, m', rows, cols) && UnitRows(m', cols, cols)
    requires Matrix(f, m', rows, cols) && NormalForm(m', rows, cols)
    ensures m == m'
  {
    hide Mul, Eval, Xor, Dot, AtPoint, UnitRow;
    var t, d :| Evaluates(f, m, rows, cols, t, d);
    var t', d' :| Evaluates(f, m', rows, cols, t', d');
    forall r, j | 0 <= r < rows && 0 <= j < cols
      ensures m[r][j] == m'[r][j]
    {
      if r < cols {
        assert UnitRow(m, r, cols) && UnitRow(m', r, cols);
        SameUnitRow(m, m', r, cols);
      } else {
        EntriesAgree(f, m, m', rows, cols, t, d, t', d', r, j);
        EntriesAgree(f, m, m', rows, cols, t, d, t', d', cols, j);
        EntriesAgree(f, m, m', rows, cols, t, d, t', d', cols, 0);
        EntriesAgree(f, m, m', rows, cols, t, d, t', d', r, 0);
        TimesOne(f, d'[cols], d[j], d[cols], d'[j]);
        TimesOne(f, d'[cols], d[0], d[cols], d'[0]);
        TimesOne(f, d'[r], d[0], d[r], d'[0]);
        FactorsAgree(f, d[j], d'[j], d[0], d'[0], d[r], d'[r], d[cols], d'[cols]);
        EqualFactor(f, m[r][j], m'[r][j], d'[r], d[j]);
      }
    }
    forall r | 0 <= r < rows
      ensures m[r] == m'[r]
    {}
  }

  lemma SameUnitRow(m: seq<seq<nat>>, m': seq<seq<nat>>, r: nat, cols: nat)
    requires UnitRow(m, r, cols) && UnitRow(m', r, cols)
    ensures m[r] == m'[r]
  {}

  lemma {:induction false} EqualFactor(f: Field, x: nat, y: nat, a: nat, b: nat)
    requires IsField(f) && f.Has(x) && f.Has(y) && f.Has(a) && f.Has(b) && a != 0 && b != 0
    requires Mul(f, x, Mul(f, a, b)) == Mul(f, y, Mul(f, a, b))
    ensures x == y
  {
    MulHas(f, a, b);
    Cancel(f, x, y, Mul(f, a, b));
  }

  /** With equal ratios along a row and along a column all ratios are equal. */
  lemma {:induction false} FactorsAgree(f: Field, dj: nat, dj': nat, d0: nat, d0': nat, dr: nat, dr': nat, dc: nat, dc': nat)
    requires IsField(f) && f.Has(dj) && f.Has(dj') && f.Has(d0) && f.Has(d0') && f.Has(dr) && f.Has(dr') && f.Has(dc) && f.Has(dc')
    requires dc' != 0 && d0 != 0 && Mul(f, dc', dj) == Mul(f, dc, dj')
    requires Mul(f, dc', d0) == Mul(f, dc, d0') && Mul(f, dr', d0) == Mul(f, dr, d0')
    ensures Mul(f, dr', dj) == Mul(f, dr, dj')
  {
    hide Mul;
    var x, y := Mul(f, dr', dj), Mul(f, dr, dj');
    assert f.Has(x) && f.Has(y) by {
      MulHas(f, dr', dj);
      MulHas(f, dr, dj');
    }
    assert Mul(f, x, Mul(f, dc', d0)) == Mul(f, y, Mul(f, dc', d0)) by {
      MulSwap(f, dr', dj, dc', d0);
      MulSwap(f, dr, dj', dc, d0');
    }
    EqualFactor(f, x, y, dc', d0);
  }

  lemma {:induction false} TimesOne(f: Field, a: nat, b: nat, c: nat, e: nat)
    requires f.Valid() && f.Has(b) && f.Has(e) && Mul(f, 1, Mul(f, a, b)) == Mul(f, 1, Mul(f, c, e))
    ensures Mul(f, a, b) == Mul(f, c, e)
  {
    hide Mul;
    MulHas(f, a, b);
    MulHas(f, c, e);
    MulOne(f, Mul(f, a, b));
    MulOne(f, Mul(f, c, e));
  }

  /** The distribution matrix is the only systematic matrix of the code in normal form. */
  lemma DistributionUnique(f: Field, m: seq<seq<nat>>, rows: nat, cols: nat)
    requires IsField(f) && 0 < cols < rows <= Pow2(f.w) + 1 && Matrix(f, m, rows, cols)
    requires IsVandermondeCode(f, m, rows, cols) && UnitRows(m, cols, cols) && NormalForm(m, rows, cols)
    ensures m == DistributionMatrix(f, rows, cols)
  {
    hide IsVandermondeCode, DistributionMatrix, MDS, UnitRows, NormalForm;
    DistributionEvaluates(f, rows, cols);
    DistributionCorrect(f, rows, cols);
    NormalFormUnique(f, m, DistributionMatrix(f, rows, cols), rows, cols);
  }
}
