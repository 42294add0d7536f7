/** The extended Vandermonde matrix and its elimination into a systematic distribution matrix:
    what the loops of reed_sol.c compute, and why the result is MDS. */
module Distribution {
  import opened Words
  import opened Counting
  import opened GaloisField
  import opened Vectors
  import opened Matrices

  datatype Option<T> = Some(value: T) | None

  // ---------- the extended Vandermonde matrix ----------

  /** k, k*b, k*b^2, ... */
  function PowerRow(f: Field, k: nat, b: nat, n: nat): (r: seq<nat>)
    requires f.Valid()
    ensures |r| == n
    decreases n
  {
    if n == 0 then [] else [k] + PowerRow(f, Mul(f, k, b), b, n - 1)
  }

  function VandermondeRow(f: Field, rows: nat, cols: nat, i: nat): (r: seq<nat>)
    requires f.Valid() && i < rows && cols > 0
    ensures |r| == cols
  {
    if i == 0 then Unit(0, cols) else if i == rows - 1 then Unit(cols - 1, cols) else PowerRow(f, 1, i, cols)
  }

  function Vandermonde(f: Field, rows: nat, cols: nat): (m: seq<seq<nat>>)
    requires f.Valid() && cols > 0
    ensures |m| == rows
  {
    seq(rows, i requires 0 <= i < rows => VandermondeRow(f, rows, cols, i))
  }

  lemma {:induction false} PowerRowHas(f: Field, k: nat, b: nat, n: nat)
    requires f.Valid() && f.Has(k) && f.Has(b)
    ensures Vector(f, PowerRow(f, k, b, n), n)
    decreases n
  {
    hide Xor, Mul;
    if n > 0 {
      MulHas(f, k, b);
      PowerRowHas(f, Mul(f, k, b), b, n - 1);
    }
  }

  lemma VandermondeMatrix(f: Field, rows: nat, cols: nat)
    requires f.Valid() && 0 < cols && rows <= Pow2(f.w) + 1
    ensures Matrix(f, Vandermonde(f, rows, cols), rows, cols)
  {
    forall i | 0 <= i < rows
      ensures Vector(f, Vandermonde(f, rows, cols)[i], cols)
    {
      UnitVector(f, 0, cols);
      UnitVector(f, cols - 1, cols);
      if 0 < i < rows - 1 { PowerRowHas(f, 1, i, cols); }
    }
  }

  /** A row of powers evaluates the data as a polynomial. */
  lemma {:induction false} PowerRowEvaluates(f: Field, k: nat, b: nat, v: seq<nat>)
    requires f.Valid() && f.Has(k) && f.Has(b) && Vector(f, v, |v|)
    ensures Dot(f, PowerRow(f, k, b, |v|), v) == Mul(f, k, Eval(f, v, b))
    decreases |v|
  {
    hide Xor, Mul;
    if v == [] {
      MulZero(f, k);
    } else {
      Tail(f, v);
      var r, e := PowerRow(f, k, b, |v|), Eval(f, v[1..], b);
      assert r[1..] == PowerRow(f, Mul(f, k, b), b, |v| - 1);
      MulHas(f, k, b);
      PowerRowEvaluates(f, Mul(f, k, b), b, v[1..]);
      EvalHas(f, v[1..], b);
      MulAssoc(f, k, b, e);
      MulHas(f, b, e);
      MulXorRight(f, k, v[0], Mul(f, b, e));
    }
  }

  /** Every row but the last evaluates the data at the row number. */
  lemma {:induction false} RowEvaluates(f: Field, rows: nat, cols: nat, i: nat, v: seq<nat>)
    requires f.Valid() && 0 < cols && rows <= Pow2(f.w) + 1 && i < rows - 1 && Vector(f, v, cols)
    ensures Dot(f, Vandermonde(f, rows, cols)[i], v) == Eval(f, v, i)
  {
    hide Xor, Mul;
    EvalHas(f, v, i);
    if i == 0 {
      DotUnit(f, v, 0, cols);
      MulZero(f, Eval(f, v[1..], 0));
      XorZero(v[0]);
    } else {
      PowerRowEvaluates(f, 1, i, v);
      MulOne(f, Eval(f, v, i));
    }
  }

  /** Data that vanishes beyond entry n and evaluates to 0 at n points is 0. */
  lemma {:induction false} ShortPolynomial(f: Field, v: seq<nat>, n: nat, points: seq<nat>)
    requires IsField(f) && Vector(f, v, |v|) && n <= |v| && (forall l :: n <= l < |v| ==> v[l] == 0)
    requires Vector(f, points, n) && Distinct(points)
    requires forall i :: 0 <= i < n ==> Eval(f, v, points[i]) == 0
    ensures Zero(v)
  {
    var u := v[..n];
    forall i | 0 <= i < n
      ensures Eval(f, u, points[i]) == 0
    {
      EvalPrefix(f, v, n, points[i]);
    }
    TooManyRoots(f, u, points);
    forall l | 0 <= l < |v|
      ensures v[l] == 0
    {
      if l < n { assert u[l] == 0; }
    }
  }

  /** The extended Vandermonde matrix is MDS. */
  lemma VandermondeMDS(f: Field, rows: nat, cols: nat)
    requires IsField(f) && 0 < cols < rows <= Pow2(f.w) + 1
    ensures MDS(f, Vandermonde(f, rows, cols), rows, cols)
  {
    hide Xor, Mul, Dot, Eval;
    var m := Vandermonde(f, rows, cols);
    forall devices, v | Selection(devices, cols, rows) && Vector(f, v, cols) && Kills(f, m, devices, v)
      ensures Zero(v)
    {
      forall t | 0 <= t < cols && devices[t] < rows - 1
        ensures Eval(f, v, devices[t]) == 0
      {
        RowEvaluates(f, rows, cols, devices[t], v);
      }
      if t :| 0 <= t < cols && devices[t] == rows - 1 {
        DotUnit(f, v, cols - 1, cols);
        WithLastRow(f, rows, cols, devices, t, v);
      } else {
        ShortPolynomial(f, v, cols, devices);
      }
    }
  }

  /** The last row fixes the leading coefficient; the others are roots of what remains. */
  lemma {:induction false} WithLastRow(f: Field, rows: nat, cols: nat, devices: seq<nat>, t: nat, v: seq<nat>)
    requires IsField(f) && 0 < cols < rows <= Pow2(f.w) + 1 && Selection(devices, cols, rows) && Vector(f, v, cols)
    requires t < cols && devices[t] == rows - 1 && v[cols - 1] == 0
    requires forall s :: 0 <= s < cols && devices[s] < rows - 1 ==> Eval(f, v, devices[s]) == 0
    ensures Zero(v)
  {
    hide Eval;
    var points := devices[..t] + devices[t + 1..];
    forall i | 0 <= i < cols - 1
      ensures f.Has(points[i]) && Eval(f, v, points[i]) == 0
    {
      var s := if i < t then i else i + 1;
      assert points[i] == devices[s] && devices[s] != devices[t];
    }
    forall i, j | 0 <= i < j < cols - 1
      ensures points[i] != points[j]
    {
      var s, u := if i < t then i else i + 1, if j < t then j else j + 1;
      assert points[i] == devices[s] && points[j] == devices[u] && s < u;
    }
    ShortPolynomial(f, v, cols - 1, points);
  }

  lemma VandermondeLeading(f: Field, rows: nat, cols: nat, t: nat)
    requires IsField(f) && t < cols < rows <= Pow2(f.w) + 1
    ensures Leading(f, Vandermonde(f, rows, cols), t, cols)
  {
    hide Xor, Mul, Dot, Eval;
    var m, first := Vandermonde(f, rows, cols), FirstRows(t + 1);
    forall v | Vector(f, v, cols) && (forall l :: t < l < cols ==> v[l] == 0) && Kills(f, m, first, v)
      ensures Zero(v)
    {
      forall i | 0 <= i <= t
        ensures Eval(f, v, first[i]) == 0
      {
        assert Dot(f, m[first[i]], v) == 0;
        RowEvaluates(f, rows, cols, i, v);
      }
      ShortPolynomial(f, v, t + 1, first);
    }
  }

  // ---------- one stage of the elimination ----------

  /** The first row from j on whose entry in column i is not 0, or the number of rows. */
  function FindPivot(m: seq<seq<nat>>, i: nat, j: nat): (p: nat)
    requires j <= |m| && forall k :: 0 <= k < |m| ==> i < |m[k]|
    ensures j <= p <= |m| && (p < |m| ==> m[p][i] != 0)
    ensures forall k :: j <= k < p ==> m[k][i] == 0
    decreases |m| - j
  {
    if j == |m| || m[j][i] != 0 then j else FindPivot(m, i, j + 1)
  }

  /** Clears row i in the columns before n by adding multiples of column i. */
  ghost function ClearRow(f: Field, m: seq<seq<nat>>, i: nat, n: nat): (r: seq<seq<nat>>)
    requires f.Valid() && i < |m| && forall k :: 0 <= k < |m| ==> i < |m[k]| && n <= |m[k]|
    ensures |r| == |m| && forall k :: 0 <= k < |m| ==> |r[k]| == |m[k]|
  {
    if n == 0 then m
    else
      var r := ClearRow(f, m, i, n - 1);
      if n - 1 == i then r else AddColumn(f, r, i, n - 1, r[i][n - 1])
  }

  /** Stage i: swap a pivot into place, make it 1, clear the rest of row i; None is exit(1). */
  ghost function Stage(f: Field, m: seq<seq<nat>>, rows: nat, cols: nat, i: nat): (r: Option<seq<seq<nat>>>)
    requires IsField(f) && Matrix(f, m, rows, cols) && i < cols < rows
    ensures r.Some? ==> Matrix(f, r.value, rows, cols)
  {
    var p := FindPivot(m, i, i);
    if p == rows then None
    else
      var s := SwapRows(m, i, p);
      var scaled := ScaleColumn(f, s, 0, i, Quotient(f, 1, s[i][i]));
      ScaleColumnMatrix(f, s, rows, cols, i, Quotient(f, 1, s[i][i]));
      ClearRowMatrix(f, scaled, rows, cols, i, cols);
      Some(ClearRow(f, scaled, i, cols))
  }

  lemma ScaleColumnMatrix(f: Field, m: seq<seq<nat>>, rows: nat, cols: nat, i: nat, t: nat)
    requires f.Valid() && Matrix(f, m, rows, cols) && i < cols && f.Has(t)
    ensures Matrix(f, ScaleColumn(f, m, 0, i, t), rows, cols)
  {
    hide Mul;
    forall r | 0 <= r < rows
      ensures Vector(f, ScaleColumn(f, m, 0, i, t)[r], cols)
    {
      MulHas(f, t, m[r][i]);
    }
  }

  lemma {:induction false} ClearRowMatrix(f: Field, m: seq<seq<nat>>, rows: nat, cols: nat, i: nat, n: nat)
    requires f.Valid() && Matrix(f, m, rows, cols) && i < rows && i < cols && n <= cols
    ensures Matrix(f, ClearRow(f, m, i, n), rows, cols)
  {
    hide Xor, Mul;
    if n > 0 {
      ClearRowMatrix(f, m, rows, cols, i, n - 1);
      var r := ClearRow(f, m, i, n - 1);
      forall k | 0 <= k < rows
        ensures Vector(f, ClearRow(f, m, i, n)[k], cols)
      {
        MulHas(f, r[i][n - 1], r[k][i]);
        XorBound(r[k][n - 1], Mul(f, r[i][n - 1], r[k][i]), f.w);
      }
    }
  }

  /** What holds before stage i. */
  ghost predicate Ready(f: Field, m: seq<seq<nat>>, rows: nat, cols: nat, i: nat)
    requires f.Valid()
  {
    Matrix(f, m, rows, cols) && MDS(f, m, rows, cols) && UnitRows(m, i, cols) &&
    forall t :: i <= t < cols ==> Leading(f, m, t, cols)
  }

  /** The pivot is always in place: row i is never searched past. */
  lemma {:induction false} PivotInPlace(f: Field, m: seq<seq<nat>>, rows: nat, cols: nat, i: nat)
    requires IsField(f) && i < cols < rows && Ready(f, m, rows, cols, i)
    ensures m[i][i] != 0 && FindPivot(m, i, i) == i
  {
    hide Xor, Mul, Dot;
    assert Leading(f, m, i, cols);
    if m[i][i] == 0 { ZeroPivotHidesColumn(f, m, rows, cols, i); }
  }

  lemma ZeroPivotHidesColumn(f: Field, m: seq<seq<nat>>, rows: nat, cols: nat, i: nat)
    requires f.Valid() && i < cols < rows && Matrix(f, m, rows, cols) && UnitRows(m, i, cols) && m[i][i] == 0
    ensures Vector(f, Unit(i, cols), cols) && !Zero(Unit(i, cols))
    ensures Kills(f, m, FirstRows(i + 1), Unit(i, cols))
  {
    hide Xor, Mul, Dot;
    var v := Unit(i, cols);
    UnitVector(f, i, cols);
    assert v[i] == 1;
    forall t | 0 <= t <= i
      ensures Dot(f, m[t], v) == 0
    {
      if t < i { assert UnitRow(m, t, cols); }
      DotUnit(f, m[t], i, cols);
    }
  }

  /** Scaling column i keeps everything and makes the pivot 1. */
  lemma ScaleReady(f: Field, m: seq<seq<nat>>, rows: nat, cols: nat, i: nat)
    requires IsField(f) && i < cols < rows && Ready(f, m, rows, cols, i) && m[i][i] != 0
    ensures var s := ScaleColumn(f, m, 0, i, Quotient(f, 1, m[i][i]));
      Ready(f, s, rows, cols, i) && s[i][i] == 1
  {
    hide Xor, Mul, Dot;
    var t := Quotient(f, 1, m[i][i]);
    var s := ScaleColumn(f, m, 0, i, t);
    QuotientNonzero(f, 1, m[i][i]);
    ScaleColumnMDS(f, m, rows, cols, 0, i, t);
    forall r: nat | r < i
      ensures UnitRow(s, r, cols)
    {
      assert UnitRow(m, r, cols);
      MulZero(f, t);
      assert s[r] == m[r];
    }
    forall n | i <= n < cols
      ensures Leading(f, s, n, cols)
    {
      ScaleColumnLeading(f, m, rows, cols, i, t, n);
    }
  }

  /** Adding a multiple of column i to another column keeps everything. */
  lemma AddColumnReady(f: Field, m: seq<seq<nat>>, rows: nat, cols: nat, i: nat, j: nat, e: nat)
    requires IsField(f) && i < cols < rows && j < cols && i != j && f.Has(e) && Ready(f, m, rows, cols, i)
    ensures Ready(f, AddColumn(f, m, i, j, e), rows, cols, i)
  {
    hide Xor, Mul, Dot, MDS, Leading;
    var s := AddColumn(f, m, i, j, e);
    AddColumnMDS(f, m, rows, cols, i, j, e);
    forall k: nat | k < i
      ensures UnitRow(s, k, cols)
    {
      assert UnitRow(m, k, cols);
      MulZero(f, e);
      XorZero(m[k][j]);
      assert s[k] == m[k];
    }
    forall k | i <= k < cols
      ensures Leading(f, s, k, cols)
    {
      AddColumnLeading(f, m, rows, cols, i, j, e, k);
    }
  }

  /** Clearing row i keeps everything and leaves 0 left of column n, outside the pivot. */
  lemma {:induction false} ClearReady(f: Field, m: seq<seq<nat>>, rows: nat, cols: nat, i: nat, n: nat)
    requires IsField(f) && i < cols < rows && n <= cols && Ready(f, m, rows, cols, i) && m[i][i] == 1
    ensures var r := ClearRow(f, m, i, n);
      Ready(f, r, rows, cols, i) && r[i][i] == 1 && (forall j :: 0 <= j < n && j != i ==> r[i][j] == 0) &&
      (forall j :: n <= j < cols ==> r[i][j] == m[i][j])
  {
    hide Xor, Mul, Dot, MDS, Leading, UnitRows;
    if n > 0 {
      ClearReady(f, m, rows, cols, i, n - 1);
      if n - 1 != i {
        var r := ClearRow(f, m, i, n - 1);
        var e := r[i][n - 1];
        AddColumnReady(f, r, rows, cols, i, n - 1, e);
        MulOne(f, e);
        XorZero(e);
      }
    }
  }

  /** A stage never exits, never swaps, and finishes one more unit row. */
  lemma StageReady(f: Field, m: seq<seq<nat>>, rows: nat, cols: nat, i: nat)
    requires IsField(f) && i < cols < rows && Ready(f, m, rows, cols, i)
    ensures FindPivot(m, i, i) == i
    ensures Stage(f, m, rows, cols, i).Some? && Ready(f, Stage(f, m, rows, cols, i).value, rows, cols, i + 1)
  {
    hide Xor, Mul, Dot;
    PivotInPlace(f, m, rows, cols, i);
    assert SwapRows(m, i, i) == m;
    ScaleReady(f, m, rows, cols, i);
    var s := ScaleColumn(f, m, 0, i, Quotient(f, 1, m[i][i]));
    ClearReady(f, s, rows, cols, i, cols);
    var r := ClearRow(f, s, i, cols);
    assert UnitRow(r, i, cols) by {
      assert r[i] == Unit(i, cols);
    }
  }

  // ---------- the whole elimination ----------

  /** The matrix after stages 1, ..., n - 1. */
  ghost function Stages(f: Field, rows: nat, cols: nat, n: nat): (r: Option<seq<seq<nat>>>)
    requires IsField(f) && 1 <= n <= cols < rows <= Pow2(f.w) + 1
    ensures r.Some? ==> Matrix(f, r.value, rows, cols)
  {
    if n == 1 then
      VandermondeMatrix(f, rows, cols);
      Some(Vandermonde(f, rows, cols))
    else
      var r := Stages(f, rows, cols, n - 1);
      if r.None? then None else Stage(f, r.value, rows, cols, n - 1)
  }

  lemma {:induction false} StartReady(f: Field, rows: nat, cols: nat)
    requires IsField(f) && 1 <= cols < rows <= Pow2(f.w) + 1
    ensures Ready(f, Vandermonde(f, rows, cols), rows, cols, 1)
  {
    hide Xor, Mul, Dot, Eval, MDS, Leading, PowerRow;
    VandermondeMatrix(f, rows, cols);
    VandermondeMDS(f, rows, cols);
    forall t | 1 <= t < cols
      ensures Leading(f, Vandermonde(f, rows, cols), t, cols)
    {
      VandermondeLeading(f, rows, cols, t);
    }
  }

  /** The elimination succeeds, and what it is run on is MDS with unit rows throughout. */
  lemma {:induction false} StagesReady(f: Field, rows: nat, cols: nat, n: nat)
    requires IsField(f) && 1 <= n <= cols < rows <= Pow2(f.w) + 1
    ensures Stages(f, rows, cols, n).Some? && Ready(f, Stages(f, rows, cols, n).value, rows, cols, n)
  {
    hide Xor, Mul, Dot, Eval, Ready, Stage, Vandermonde, IsField, Pow2;
    if n == 1 {
      StartReady(f, rows, cols);
    } else {
      StagesReady(f, rows, cols, n - 1);
      StageReady(f, Stages(f, rows, cols, n - 1).value, rows, cols, n - 1);
    }
  }

  // ---------- normalisation ----------

  /** Divides each of the first n columns, below the unit rows, by its entry in row cols. */
  ghost function NormalizeColumns(f: Field, m: seq<seq<nat>>, rows: nat, cols: nat, n: nat): (r: seq<seq<nat>>)
    requires IsField(f) && Matrix(f, m, rows, cols) && n <= cols < rows
    requires forall j :: 0 <= j < cols ==> m[cols][j] != 0
    ensures |r| == rows && (forall k :: 0 <= k < rows ==> |r[k]| == cols)
    ensures forall j :: n <= j < cols ==> r[cols][j] == m[cols][j]
  {
    if n == 0 then m
    else
      var r := NormalizeColumns(f, m, rows, cols, n - 1);
      ScaleColumn(f, r, cols, n - 1, Quotient(f, 1, r[cols][n - 1]))
  }

  /** Divides each of the rows cols + 1, ..., n - 1 by its first entry. */
  ghost function NormalizeRows(f: Field, m: seq<seq<nat>>, rows: nat, cols: nat, n: nat): (r: seq<seq<nat>>)
    requires IsField(f) && Matrix(f, m, rows, cols) && 0 < cols < n <= rows
    requires forall i :: cols < i < rows ==> m[i][0] != 0
    ensures |r| == rows && forall k :: n <= k < rows ==> r[k] == m[k]
    decreases n
  {
    if n == cols + 1 then m
    else
      var r := NormalizeRows(f, m, rows, cols, n - 1);
      ScaleRow(f, r, n - 1, Quotient(f, 1, r[n - 1][0]))
  }

  ghost predicate Systematic(f: Field, m: seq<seq<nat>>, rows: nat, cols: nat)
    requires f.Valid()
  {
    Matrix(f, m, rows, cols) && MDS(f, m, rows, cols) && UnitRows(m, cols, cols)
  }

  /** Row cols is all ones, and so is the first column of the coding rows. */
  ghost predicate NormalForm(m: seq<seq<nat>>, rows: nat, cols: nat)
    requires |m| == rows && forall r :: 0 <= r < rows ==> |m[r]| == cols
  {
    (forall j :: cols < rows && 0 <= j < cols ==> m[cols][j] == 1) &&
    (forall i :: cols <= i < rows && 0 < cols ==> m[i][0] == 1)
  }

  lemma ScaleColumnUnits(f: Field, m: seq<seq<nat>>, rows: nat, cols: nat, j: nat, t: nat)
    requires f.Valid() && Matrix(f, m, rows, cols) && UnitRows(m, cols, cols) && j < cols <= rows
    ensures UnitRows(ScaleColumn(f, m, cols, j, t), cols, cols)
  {
    var s := ScaleColumn(f, m, cols, j, t);
    forall r: nat | r < cols
      ensures UnitRow(s, r, cols)
    {
      assert UnitRow(m, r, cols);
    }
  }

  lemma {:induction false} NormalizeColumnsCorrect(f: Field, m: seq<seq<nat>>, rows: nat, cols: nat, n: nat)
    requires IsField(f) && Systematic(f, m, rows, cols) && n <= cols < rows
    ensures forall j :: 0 <= j < cols ==> m[cols][j] != 0
    ensures var r := NormalizeColumns(f, m, rows, cols, n);
      Systematic(f, r, rows, cols) && forall j :: 0 <= j < n ==> r[cols][j] == 1
  {
    hide Xor, Mul, Dot, MDS, UnitRows;
    forall j | 0 <= j < cols
      ensures m[cols][j] != 0
    {
      NoZeroEntry(f, m, rows, cols, cols, j);
    }
    if n > 0 {
      NormalizeColumnsCorrect(f, m, rows, cols, n - 1);
      var r := NormalizeColumns(f, m, rows, cols, n - 1);
      var t := Quotient(f, 1, r[cols][n - 1]);
      QuotientNonzero(f, 1, r[cols][n - 1]);
      ScaleColumnMDS(f, r, rows, cols, cols, n - 1, t);
      ScaleColumnUnits(f, r, rows, cols, n - 1, t);
    }
  }

  lemma {:induction false} NormalizeRowsCorrect(f: Field, m: seq<seq<nat>>, rows: nat, cols: nat, n: nat)
    requires IsField(f) && Systematic(f, m, rows, cols) && 0 < cols < n <= rows
    ensures forall i :: cols < i < rows ==> m[i][0] != 0
    ensures var r := NormalizeRows(f, m, rows, cols, n);
      Systematic(f, r, rows, cols) && r[cols] == m[cols] && forall i :: cols < i < n ==> r[i][0] == 1
    decreases n
  {
    hide Xor, Mul, Dot, MDS, Scale;
    forall i | cols < i < rows
      ensures m[i][0] != 0
    {
      NoZeroEntry(f, m, rows, cols, i, 0);
    }
    if n > cols + 1 {
      NormalizeRowsCorrect(f, m, rows, cols, n - 1);
      var r := NormalizeRows(f, m, rows, cols, n - 1);
      var t := Quotient(f, 1, r[n - 1][0]);
      QuotientNonzero(f, 1, r[n - 1][0]);
      ScaleRowMDS(f, r, rows, cols, n - 1, t);
      var s := ScaleRow(f, r, n - 1, t);
      ScaleAt(f, r[n - 1], t, 0);
      forall k: nat | k < cols
        ensures UnitRow(s, k, cols)
      {
        assert UnitRow(r, k, cols);
      }
    }
  }

  lemma {:induction false} ScaleAt(f: Field, a: seq<nat>, t: nat, i: nat)
    requires f.Valid() && i < |a|
    ensures Scale(f, a, t)[i] == Mul(f, t, a[i])
  {}

  /** The matrix of reed_sol_big_vandermonde_distribution_matrix. */
  ghost function DistributionMatrix(f: Field, rows: nat, cols: nat): (m: seq<seq<nat>>)
    requires IsField(f) && 0 < cols < rows <= Pow2(f.w) + 1
    ensures Matrix(f, m, rows, cols)
  {
    StagesReady(f, rows, cols, cols);
    var m := Stages(f, rows, cols, cols).value;
    NormalizeColumnsCorrect(f, m, rows, cols, cols);
    var c := NormalizeColumns(f, m, rows, cols, cols);
    NormalizeRowsCorrect(f, c, rows, cols, rows);
    NormalizeRows(f, c, rows, cols, rows)
  }

  /** The distribution matrix is systematic, MDS and in normal form. */
  lemma DistributionCorrect(f: Field, rows: nat, cols: nat)
    requires IsField(f) && 0 < cols < rows <= Pow2(f.w) + 1
    ensures MDS(f, DistributionMatrix(f, rows, cols), rows, cols)
    ensures UnitRows(DistributionMatrix(f, rows, cols), cols, cols)
    ensures NormalForm(DistributionMatrix(f, rows, cols), rows, cols)
  {
    StagesReady(f, rows, cols, cols);
    var m := Stages(f, rows, cols, cols).value;
    NormalizeColumnsCorrect(f, m, rows, cols, cols);
    var c := NormalizeColumns(f, m, rows, cols, cols);
    NormalizeRowsCorrect(f, c, rows, cols, rows);
  }
}
