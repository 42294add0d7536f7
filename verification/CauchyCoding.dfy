/** cauchy.c: building a Cauchy coding matrix and rescaling it in place for a sparser bit matrix. */
module CauchyCoding {
  import opened Words
  import opened Indexing
  import opened GaloisField
  import opened Vectors
  import opened Matrices
  import opened Cauchy
  import opened ReedSol
  import opened BitMatrixOnes

  // ---------- construction ----------

  /** galois_single_divide(1, d, w) with its error value. */
  ghost function InverseOrError(f: Field, d: nat): int
    requires IsField(f) && f.Has(d)
  {
    if d == 0 then -1 else Quotient(f, 1, d)
  }

  method DivideOne(f: Field, d: nat) returns (q: int)
    requires IsField(f) && f.Has(d)
    ensures q == InverseOrError(f, d)
  {
    if d == 0 { return -1; }
    q := Divide(f, 1, d);
  }

  lemma SumsInside(f: Field, x: seq<nat>, y: seq<nat>)
    requires Vector(f, x, |x|) && Vector(f, y, |y|)
    ensures forall i, j :: 0 <= i < |x| && 0 <= j < |y| ==> f.Has(Xor(x[i], y[j]))
  {
    forall i, j | 0 <= i < |x| && 0 <= j < |y|
      ensures f.Has(Xor(x[i], y[j]))
    {
      XorBound(x[i], y[j], f.w);
    }
  }

  /** The rows of cauchy_xy_coding_matrix; an entry is -1 where a word of x also occurs in y. */
  ghost function XYRows(f: Field, x: seq<nat>, y: seq<nat>): (a: seq<seq<int>>)
    requires IsField(f) && Vector(f, x, |x|) && Vector(f, y, |y|)
    ensures |a| == |x| && forall i :: 0 <= i < |x| ==> |a[i]| == |y|
    ensures forall i, j :: 0 <= i < |x| && 0 <= j < |y| ==>
      f.Has(Xor(x[i], y[j])) && a[i][j] == InverseOrError(f, Xor(x[i], y[j]))
  {
    SumsInside(f, x, y);
    seq(|x|, i requires 0 <= i < |x| => seq(|y|, j requires 0 <= j < |y| => InverseOrError(f, Xor(x[i], y[j]))))
  }

  /** cauchy_xy_coding_matrix */
  method XYCodingMatrix(f: Field, x: seq<nat>, y: seq<nat>) returns (matrix: array<int>)
    requires IsField(f) && Vector(f, x, |x|) && Vector(f, y, |y|)
    ensures fresh(matrix) && Flat(matrix[..], XYRows(f, x, y), |x|, |y|)
    ensures forall i, j :: 0 <= i < |x| && 0 <= j < |y| ==> (
      At(i, j, |y|) < matrix.Length &&
      if x[i] == y[j] then matrix[At(i, j, |y|)] == -1
      else matrix[At(i, j, |y|)] >= 0 && Mul(f, matrix[At(i, j, |y|)], Xor(x[i], y[j])) == 1)
  {
    hide Xor, At, InverseOrError, FlatTo, Flat;
    var k, m := |y|, |x|;
    ghost var a := XYRows(f, x, y);
    matrix := new int[m * k];
    var index := 0;
    FlatToStart(matrix[..], a, m, k);
    for i := 0 to m
      invariant index == At(i, 0, k) && FlatTo(matrix[..], a, m, k, i, 0)
    {
      for j := 0 to k
        invariant index == At(i, j, k) && FlatTo(matrix[..], a, m, k, i, j)
      {
        ghost var before := matrix[..];
        FlatToStore(before, a, m, k, i, j);
        var d := Xor(x[i], y[j]);
        matrix[index] := DivideOne(f, d);
        assert matrix[..] == before[At(i, j, k) := a[i][j]];
        index := index + 1;
      }
      FlatToRow(matrix[..], a, m, k, i);
    }
    FlatToAll(matrix[..], a, m, k);
    forall i, j | 0 <= i < m && 0 <= j < k
      ensures At(i, j, k) < matrix.Length && matrix[At(i, j, k)] == a[i][j]
    {
      FlatAt(matrix[..], a, m, k, i, j);
    }
    forall i, j | 0 <= i < m && 0 <= j < k
      ensures if x[i] == y[j] then a[i][j] == -1 else a[i][j] >= 0 && Mul(f, a[i][j], Xor(x[i], y[j])) == 1
    {
      XYEntry(f, x, y, i, j);
    }
  }

  lemma {:induction false} XYEntry(f: Field, x: seq<nat>, y: seq<nat>, i: nat, j: nat)
    requires IsField(f) && Vector(f, x, |x|) && Vector(f, y, |y|) && i < |x| && j < |y|
    ensures if x[i] == y[j] then XYRows(f, x, y)[i][j] == -1
      else XYRows(f, x, y)[i][j] >= 0 && Mul(f, XYRows(f, x, y)[i][j], Xor(x[i], y[j])) == 1
  {
    hide Mul, Xor;
    XorZeroIsEqual(x[i], y[j]);
  }


  lemma FlatToStart<T>(a: seq<T>, m: seq<seq<T>>, rows: nat, cols: nat)
    requires |a| == rows * cols && |m| == rows && forall r :: 0 <= r < rows ==> |m[r]| == cols
    ensures FlatTo(a, m, rows, cols, 0, 0) && At(0, 0, cols) == 0
  {}

  /** The rows 1 / (x_i + y_j). */
  ghost function CauchyRows(f: Field, x: seq<nat>, y: seq<nat>): (a: seq<seq<nat>>)
    requires IsField(f) && Apart(f, x, y)
    ensures |a| == |x| && forall i :: 0 <= i < |x| ==> |a[i]| == |y|
    ensures forall i, j :: 0 <= i < |x| && 0 <= j < |y| ==>
      f.Has(Xor(x[i], y[j])) && Xor(x[i], y[j]) != 0 && a[i][j] == Quotient(f, 1, Xor(x[i], y[j]))
  {
    SumsInside(f, x, y);
    SumsNonzero(f, x, y);
    seq(|x|, i requires 0 <= i < |x| => seq(|y|, j requires 0 <= j < |y| => Quotient(f, 1, Xor(x[i], y[j]))))
  }

  lemma SumsNonzero(f: Field, x: seq<nat>, y: seq<nat>)
    requires Apart(f, x, y)
    ensures forall i, j :: 0 <= i < |x| && 0 <= j < |y| ==> f.Has(Xor(x[i], y[j])) && Xor(x[i], y[j]) != 0
  {
    forall i, j | 0 <= i < |x| && 0 <= j < |y|
      ensures f.Has(Xor(x[i], y[j])) && Xor(x[i], y[j]) != 0
    {
      XorBound(x[i], y[j], f.w);
      XorZeroIsEqual(x[i], y[j]);
    }
  }

  lemma CauchyRowsAreCauchy(f: Field, x: seq<nat>, y: seq<nat>)
    requires IsField(f) && Apart(f, x, y)
    ensures IsCauchy(f, CauchyRows(f, x, y), x, y)
  {
    hide Xor, Mul;
  }

  /** 0, ..., m - 1 and m, ..., m + k - 1. */
  function FirstWords(m: nat): seq<nat> { seq(m, i => i) }
  function NextWords(m: nat, k: nat): seq<nat> { seq(k, j => m + j) }

  lemma {:induction false} WordsApart(f: Field, m: nat, k: nat)
    requires f.Valid() && k + m <= Pow2(f.w)
    ensures Apart(f, FirstWords(m), NextWords(m, k))
  {}

  /** cauchy_original_coding_matrix; null when k + m words do not fit. */
  method OriginalCodingMatrix(f: Field, k: nat, m: nat) returns (matrix: array?<nat>)
    requires IsField(f) && (f.w >= 31 ==> k + m <= Pow2(f.w))
    ensures matrix == null <==> k + m > Pow2(f.w)
    ensures matrix != null ==> fresh(matrix) && Apart(f, FirstWords(m), NextWords(m, k))
    ensures matrix != null ==> Flat(matrix[..], CauchyRows(f, FirstWords(m), NextWords(m, k)), m, k)
    ensures matrix != null ==> forall i: nat, j: nat :: i < m && j < k ==> (
      At(i, j, k) < matrix.Length && f.Has(matrix[At(i, j, k)]) && Mul(f, matrix[At(i, j, k)], Xor(i, m + j)) == 1)
  {
    hide Xor, At, FlatTo, Flat, Quotient, Mul, Pow2, Apart;
    if f.w < 31 && k + m > Pow2(f.w) { return null; }
    WordsApart(f, m, k);
    ghost var a := CauchyRows(f, FirstWords(m), NextWords(m, k));
    matrix := new nat[m * k];
    var index := 0;
    FlatToStart(matrix[..], a, m, k);
    for i := 0 to m
      invariant index == At(i, 0, k) && FlatTo(matrix[..], a, m, k, i, 0)
    {
      for j := 0 to k
        invariant index == At(i, j, k) && FlatTo(matrix[..], a, m, k, i, j)
      {
        ghost var before := matrix[..];
        FlatToStore(before, a, m, k, i, j);
        assert FirstWords(m)[i] == i && NextWords(m, k)[j] == m + j;
        var d := Xor(i, m + j);
        matrix[index] := Divide(f, 1, d);
        assert matrix[..] == before[At(i, j, k) := a[i][j]];
        index := index + 1;
      }
      FlatToRow(matrix[..], a, m, k, i);
    }
    FlatToAll(matrix[..], a, m, k);
    forall i: nat, j: nat | i < m && j < k
      ensures At(i, j, k) < matrix.Length && f.Has(matrix[At(i, j, k)]) && Mul(f, matrix[At(i, j, k)], Xor(i, m + j)) == 1
    {
      OriginalEntry(f, k, m, matrix[..], i, j);
    }
  }

  /** Row i, column j of the original matrix is the inverse of i + (m + j). */
  lemma {:induction false} OriginalEntry(f: Field, k: nat, m: nat, a: seq<nat>, i: nat, j: nat)
    requires IsField(f) && Apart(f, FirstWords(m), NextWords(m, k)) && i < m && j < k
    requires Flat(a, CauchyRows(f, FirstWords(m), NextWords(m, k)), m, k)
    ensures At(i, j, k) < |a| && f.Has(a[At(i, j, k)]) && Mul(f, a[At(i, j, k)], Xor(i, m + j)) == 1
  {
    hide Xor, Mul, At;
    CauchyRowsAreCauchy(f, FirstWords(m), NextWords(m, k));
    FlatAt(a, CauchyRows(f, FirstWords(m), NextWords(m, k)), m, k, i, j);
    assert FirstWords(m)[i] == i && NextWords(m, k)[j] == m + j;
  }


  /** The original matrix recovers from any m lost devices. */
  lemma OriginalIsMDS(f: Field, k: nat, m: nat)
    requires IsField(f) && k + m <= Pow2(f.w)
    ensures Apart(f, FirstWords(m), NextWords(m, k))
    ensures MDS(f, Generator(CauchyRows(f, FirstWords(m), NextWords(m, k)), k), k + m, k)
  {
    WordsApart(f, m, k);
    CauchyRowsAreCauchy(f, FirstWords(m), NextWords(m, k));
    CauchyMDS(f, CauchyRows(f, FirstWords(m), NextWords(m, k)), FirstWords(m), NextWords(m, k));
  }

  // ---------- the improvement: what it computes ----------

  ghost predicate NonZero(f: Field, a: seq<seq<nat>>, m: nat, k: nat) {
    Matrix(f, a, m, k) && forall i, j :: 0 <= i < m && 0 <= j < k ==> a[i][j] != 0
  }

  /** Each of the first n columns divided by its top entry. */
  ghost function DivideColumns(f: Field, a: seq<seq<nat>>, m: nat, k: nat, n: nat): (r: seq<seq<nat>>)
    requires IsField(f) && NonZero(f, a, m, k) && 0 < m && n <= k
    ensures NonZero(f, r, m, k)
    ensures forall j :: 0 <= j < k ==> r[0][j] == if j < n then 1 else a[0][j]
  {
    if n == 0 then a
    else
      var r := DivideColumns(f, a, m, k, n - 1);
      ScaleColumnNonZero(f, r, m, k, n - 1, Quotient(f, 1, r[0][n - 1]));
      ScaleColumn(f, r, 0, n - 1, Quotient(f, 1, r[0][n - 1]))
  }

  lemma {:induction false} ScaleColumnNonZero(f: Field, a: seq<seq<nat>>, m: nat, k: nat, j: nat, t: nat)
    requires IsField(f) && NonZero(f, a, m, k) && j < k && f.Has(t)
    requires 0 < m && Mul(f, t, a[0][j]) == 1
    ensures NonZero(f, ScaleColumn(f, a, 0, j, t), m, k) && t != 0
  {
    hide Mul;
    MulZero(f, a[0][j]);
    forall i | 0 <= i < m
      ensures Vector(f, ScaleColumn(f, a, 0, j, t)[i], k) && ScaleColumn(f, a, 0, j, t)[i][j] != 0
    {
      MulHas(f, t, a[i][j]);
    }
  }

  /** The ones in the bit matrices of a row. */
  function RowOnes(f: Field, row: seq<nat>): nat
    requires f.Valid()
  {
    if row == [] then 0 else RowOnes(f, row[..|row| - 1]) + MatrixOnes(f, row[|row| - 1], f.w)
  }

  /** The number of ones in the bit matrices of a row: entry j, row r, column c. */
  ghost function Density(f: Field, row: seq<nat>): nat
    requires f.Valid()
  {
    |set j: nat, r: nat, c: nat | j < |row| && r < f.w && c < f.w && Bit(Mul(f, Pow2(c), row[j]), r) :: (j, r, c)|
  }

  /** The ones in the first n entries. */
  ghost function RowCells(f: Field, row: seq<nat>, n: nat): set<(nat, nat, nat)>
    requires f.Valid() && n <= |row|
  {
    set j: nat, r: nat, c: nat | j < n && r < f.w && c < f.w && Bit(Mul(f, Pow2(c), row[j]), r) :: (j, r, c)
  }

  ghost function Tagged(s: set<(nat, nat)>, j: nat): set<(nat, nat, nat)> {
    set p | p in s :: (j, p.0, p.1)
  }

  lemma {:induction false} TaggedCount(s: set<(nat, nat)>, j: nat)
    ensures |Tagged(s, j)| == |s|
  {
    if s != {} {
      var p :| p in s;
      TaggedCount(s - {p}, j);
      assert Tagged(s, j) == Tagged(s - {p}, j) + {(j, p.0, p.1)};
      assert (j, p.0, p.1) !in Tagged(s - {p}, j);
    }
  }

  lemma {:induction false} LastEntryCells(f: Field, row: seq<nat>, n: nat)
    requires f.Valid() && 0 < n <= |row|
    ensures RowCells(f, row, n) == RowCells(f, row, n - 1) + Tagged(OneCells(f, row[n - 1], f.w), n - 1)
    ensures RowCells(f, row, n - 1) !! Tagged(OneCells(f, row[n - 1], f.w), n - 1)
  {
    hide Bit, Mul, Pow2;
    forall p | p in RowCells(f, row, n)
      ensures p in RowCells(f, row, n - 1) + Tagged(OneCells(f, row[n - 1], f.w), n - 1)
    {
      if p.0 == n - 1 { assert (p.1, p.2) in OneCells(f, row[n - 1], f.w); }
    }
  }

  lemma {:induction false} RowOnesCounts(f: Field, row: seq<nat>, n: nat)
    requires f.Valid() && Vector(f, row, |row|) && n <= |row|
    ensures RowOnes(f, row[..n]) == |RowCells(f, row, n)|
  {
    hide Bit, Mul, Pow2, MatrixOnes, OneCells, RowCells, Tagged;
    if n == 0 {
      NoCells(f, row);
    } else {
      RowOnesCounts(f, row, n - 1);
      RowOnesSnoc(f, row, n - 1);
      ColumnsCount(f, row[n - 1], f.w);
      LastEntryCells(f, row, n);
      TaggedCount(OneCells(f, row[n - 1], f.w), n - 1);
    }
  }

  lemma NoCells(f: Field, row: seq<nat>)
    requires f.Valid()
    ensures RowCells(f, row, 0) == {}
  {}

  lemma {:induction false} RowOnesIsDensity(f: Field, row: seq<nat>)
    requires f.Valid() && Vector(f, row, |row|)
    ensures RowOnes(f, row) == Density(f, row)
  {
    hide Bit, Mul, Pow2, MatrixOnes, RowOnes;
    RowOnesCounts(f, row, |row|);
    assert row[..|row|] == row;
    assert RowCells(f, row, |row|) ==
      set j: nat, r: nat, c: nat | j < |row| && r < f.w && c < f.w && Bit(Mul(f, Pow2(c), row[j]), r) :: (j, r, c);
  }

  /** The row divided by its entry j. */
  ghost function Rescaled(f: Field, row: seq<nat>, j: nat): (r: seq<nat>)
    requires IsField(f) && j < |row| && Vector(f, row, |row|) && row[j] != 0
    ensures Vector(f, r, |row|) && forall l :: 0 <= l < |row| ==> Mul(f, r[l], row[j]) == row[l]
  {
    RescaledEntries(f, row, j);
    Scale(f, row, Quotient(f, 1, row[j]))
  }

  lemma {:induction false} RescaledEntries(f: Field, row: seq<nat>, j: nat)
    requires IsField(f) && j < |row| && Vector(f, row, |row|) && row[j] != 0
    ensures var r := Scale(f, row, Quotient(f, 1, row[j]));
      (Vector(f, r, |row|) && forall l :: 0 <= l < |row| ==> Mul(f, r[l], row[j]) == row[l])
  {
    hide Mul;
    var q := Quotient(f, 1, row[j]);
    forall l | 0 <= l < |row|
      ensures f.Has(Mul(f, q, row[l])) && Mul(f, Mul(f, q, row[l]), row[j]) == row[l]
    {
      DividedBack(f, q, row[l], row[j]);
    }
  }

  ghost predicate NonZeroRow(f: Field, row: seq<nat>) {
    Vector(f, row, |row|) && forall j :: 0 <= j < |row| ==> row[j] != 0
  }

  /** r is the row unless dividing by an entry makes it strictly sparser; then it is the sparsest
      such division, and among equally sparse ones that by the first entry. */
  ghost predicate ImprovedRow(f: Field, row: seq<nat>, r: seq<nat>)
    requires IsField(f) && NonZeroRow(f, row)
  {
    (r == row && forall j :: 0 <= j < |row| ==> RowOnes(f, row) <= RowOnes(f, Rescaled(f, row, j))) ||
    exists b :: 0 <= b < |row| && BestDivisor(f, row, b) && r == Rescaled(f, row, b)
  }

  ghost predicate BestDivisor(f: Field, row: seq<nat>, b: nat)
    requires IsField(f) && NonZeroRow(f, row) && b < |row|
  {
    RowOnes(f, Rescaled(f, row, b)) < RowOnes(f, row) &&
    (forall j :: 0 <= j < b ==> RowOnes(f, Rescaled(f, row, b)) < RowOnes(f, Rescaled(f, row, j))) &&
    (forall j :: b <= j < |row| ==> RowOnes(f, Rescaled(f, row, b)) <= RowOnes(f, Rescaled(f, row, j)))
  }

  /** The matrix left by cauchy_improve_coding_matrix. */
  ghost predicate Improved(f: Field, a: seq<seq<nat>>, r: seq<seq<nat>>, m: nat, k: nat)
    requires IsField(f) && NonZero(f, a, m, k) && 0 < m
  {
    var c := DivideColumns(f, a, m, k, k);
    |r| == m && r[0] == c[0] && forall i :: 1 <= i < m ==> NonZeroRow(f, c[i]) && ImprovedRow(f, c[i], r[i])
  }

  // ---------- the improvement: what it is good for ----------

  /** Row 0 is all ones, and no later row has more ones than its column-normalised form or any
      division of that form by one of its entries. */
  lemma {:induction false} ImprovementIsLeast(f: Field, a: seq<seq<nat>>, r: seq<seq<nat>>, m: nat, k: nat)
    requires IsField(f) && NonZero(f, a, m, k) && 0 < m && Improved(f, a, r, m, k)
    ensures forall j :: 0 <= j < k ==> |r[0]| == k && r[0][j] == 1
    ensures forall i :: 1 <= i < m ==> Density(f, r[i]) <= Density(f, DivideColumns(f, a, m, k, k)[i])
    ensures forall i, j :: 1 <= i < m && 0 <= j < k ==>
      Density(f, r[i]) <= Density(f, Rescaled(f, DivideColumns(f, a, m, k, k)[i], j))
  {
    hide Mul, RowOnes, Scale, Density, Rescaled, ImprovedRow;
    var c := DivideColumns(f, a, m, k, k);
    forall i | 1 <= i < m
      ensures Density(f, r[i]) <= Density(f, c[i])
      ensures forall j :: 0 <= j < k ==> Density(f, r[i]) <= Density(f, Rescaled(f, c[i], j))
    {
      SparsestRow(f, c[i], r[i]);
    }
  }

  /** Column by column the entries are divided by the top entry. */
  lemma {:induction false} DividedEntries(f: Field, a: seq<seq<nat>>, m: nat, k: nat, n: nat)
    requires IsField(f) && NonZero(f, a, m, k) && 0 < m && n <= k
    ensures forall i, j :: 0 <= i < m && 0 <= j < n ==> Mul(f, DivideColumns(f, a, m, k, n)[i][j], a[0][j]) == a[i][j]
    ensures forall i, j :: 0 <= i < m && n <= j < k ==> DivideColumns(f, a, m, k, n)[i][j] == a[i][j]
  {
    hide Mul, DivideColumns;
    if n == 0 {
      DividedFirst(f, a, m, k);
    } else {
      DividedEntries(f, a, m, k, n - 1);
      DividedNext(f, a, m, k, n);
      var r := DivideColumns(f, a, m, k, n - 1);
      forall i | 0 <= i < m
        ensures Mul(f, DivideColumns(f, a, m, k, n)[i][n - 1], a[0][n - 1]) == a[i][n - 1]
      {
        assert r[i][n - 1] == a[i][n - 1] && r[0][n - 1] == a[0][n - 1];
        DividedBack(f, Quotient(f, 1, a[0][n - 1]), a[i][n - 1], a[0][n - 1]);
      }
    }
  }

  lemma {:induction false} DividedFirst(f: Field, a: seq<seq<nat>>, m: nat, k: nat)
    requires IsField(f) && NonZero(f, a, m, k) && 0 < m
    ensures DivideColumns(f, a, m, k, 0) == a
  {}

  lemma DividedNext(f: Field, a: seq<seq<nat>>, m: nat, k: nat, n: nat)
    requires IsField(f) && NonZero(f, a, m, k) && 0 < m && 0 < n <= k
    ensures var r := DivideColumns(f, a, m, k, n - 1);
      (DivideColumns(f, a, m, k, n) == ScaleColumn(f, r, 0, n - 1, Quotient(f, 1, r[0][n - 1])))
  {
    hide Mul, ScaleColumn;
  }

  /** (q x) y = x if q y = 1. */
  lemma {:induction false} DividedBack(f: Field, q: nat, x: nat, y: nat)
    requires f.Valid() && f.Has(q) && f.Has(x) && f.Has(y) && Mul(f, q, y) == 1
    ensures f.Has(Mul(f, q, x)) && Mul(f, Mul(f, q, x), y) == x
  {
    hide Mul;
    MulHas(f, q, x);
    MulComm(f, Mul(f, q, x), y);
    MulExchange(f, y, q, x);
    MulComm(f, y, x);
    MulExchange(f, q, x, y);
    MulComm(f, x, 1);
    MulOne(f, x);
  }

  /** A row and its multiple have the same divisions. */
  lemma RescaledOfMultiple(f: Field, row: seq<nat>, t: nat, j: nat)
    requires IsField(f) && NonZeroRow(f, row) && f.Has(t) && j < |row| && NonZeroRow(f, Scale(f, row, t))
    ensures Rescaled(f, Scale(f, row, t), j) == Rescaled(f, row, j)
  {
    hide Mul;
    var r := Scale(f, row, t);
    var q, q' := Quotient(f, 1, r[j]), Quotient(f, 1, row[j]);
    MulHas(f, q, t);
    MulAssoc(f, q, t, row[j]);
    Cancel(f, Mul(f, q, t), q', row[j]);
    forall x | 0 <= x < |row|
      ensures Scale(f, r, q)[x] == Scale(f, row, q')[x]
    {
      MulAssoc(f, q, t, row[x]);
    }
  }

  /** An improved row cannot be improved. */
  lemma ImprovedRowIsFixed(f: Field, row: seq<nat>, r: seq<nat>)
    requires IsField(f) && NonZeroRow(f, row) && ImprovedRow(f, row, r)
    ensures |r| == |row| && NonZeroRow(f, r) && ImprovedRow(f, r, r)
  {
    hide Mul, RowOnes, Scale, Rescaled;
    ImprovedRowNonZero(f, row, r);
    var t := ImprovedRowIsMultiple(f, row, r);
    forall j | 0 <= j < |r|
      ensures RowOnes(f, r) <= RowOnes(f, Rescaled(f, r, j))
    {
      RescaledOfMultiple(f, row, t, j);
    }
  }

  lemma {:induction false} DivideByOnes(f: Field, a: seq<seq<nat>>, m: nat, k: nat, n: nat)
    requires IsField(f) && NonZero(f, a, m, k) && 0 < m && n <= k && forall j :: 0 <= j < k ==> a[0][j] == 1
    ensures DivideColumns(f, a, m, k, n) == a
  {
    hide Mul;
    if n > 0 {
      DivideByOnes(f, a, m, k, n - 1);
      ScaleByOne(f, a, m, k, 0, n - 1);
    }
  }

  /** Improving twice is improving once. */
  lemma ImprovementIsFixed(f: Field, a: seq<seq<nat>>, r: seq<seq<nat>>, m: nat, k: nat)
    requires IsField(f) && NonZero(f, a, m, k) && 0 < m && Improved(f, a, r, m, k)
    ensures NonZero(f, r, m, k) && Improved(f, r, r, m, k)
  {
    hide Mul, ImprovedRow, DivideColumns;
    var c := DivideColumns(f, a, m, k, k);
    forall i | 1 <= i < m
      ensures |r[i]| == k && NonZeroRow(f, r[i]) && ImprovedRow(f, r[i], r[i])
    {
      ImprovedRowIsFixed(f, c[i], r[i]);
    }
    DivideByOnes(f, r, m, k, k);
  }

  lemma {:induction false} DivideColumnsMDS(f: Field, a: seq<seq<nat>>, m: nat, k: nat, n: nat)
    requires IsField(f) && NonZero(f, a, m, k) && 0 < m && n <= k && MDS(f, Generator(a, k), k + m, k)
    ensures MDS(f, Generator(DivideColumns(f, a, m, k, n), k), k + m, k)
  {
    hide Mul, MDS;
    if n > 0 {
      DivideColumnsMDS(f, a, m, k, n - 1);
      var r := DivideColumns(f, a, m, k, n - 1);
      var t := Quotient(f, 1, r[0][n - 1]);
      ScaleColumnNonZero(f, r, m, k, n - 1, t);
      GeneratorMatrix(f, r, m, k);
      ScaleColumnMDS(f, Generator(r, k), k + m, k, k, n - 1, t);
      assert Generator(ScaleColumn(f, r, 0, n - 1, t), k) == ScaleColumn(f, Generator(r, k), k, n - 1, t);
    }
  }

  /** The rows before n taken from r, the rest from c. */
  function Splice(r: seq<seq<nat>>, c: seq<seq<nat>>, n: nat): (s: seq<seq<nat>>)
    requires n <= |r| == |c|
    ensures |s| == |c|
  {
    r[..n] + c[n..]
  }

  lemma ScaledRowMDS(f: Field, s: seq<seq<nat>>, m: nat, k: nat, i: nat, t: nat)
    requires IsField(f) && Matrix(f, s, m, k) && MDS(f, Generator(s, k), k + m, k)
    requires i < m && f.Has(t) && t != 0
    ensures Matrix(f, ScaleRow(f, s, i, t), m, k)
    ensures MDS(f, Generator(ScaleRow(f, s, i, t), k), k + m, k)
  {
    hide Mul, MDS;
    GeneratorMatrix(f, s, m, k);
    ScaleRowMDS(f, Generator(s, k), k + m, k, k + i, t);
    assert Generator(ScaleRow(f, s, i, t), k) == ScaleRow(f, Generator(s, k), k + i, t);
    forall j | 0 <= j < k
      ensures f.Has(ScaleRow(f, s, i, t)[i][j])
    {
      MulHas(f, t, s[i][j]);
    }
  }

  /** An improved row is a nonzero multiple of the row. */
  lemma ImprovedRowIsMultiple(f: Field, row: seq<nat>, r: seq<nat>) returns (t: nat)
    requires IsField(f) && NonZeroRow(f, row) && ImprovedRow(f, row, r)
    ensures f.Has(t) && t != 0 && r == Scale(f, row, t)
  {
    hide Mul, RowOnes;
    if r == row {
      t := 1;
      forall j | 0 <= j < |row| ensures Scale(f, row, 1)[j] == row[j] { MulOne(f, row[j]); }
    } else {
      var b :| 0 <= b < |row| && BestDivisor(f, row, b) && r == Rescaled(f, row, b);
      t := Quotient(f, 1, row[b]);
      QuotientNonzero(f, 1, row[b]);
    }
  }

  lemma {:induction false} ImprovedRowsMDS(f: Field, c: seq<seq<nat>>, r: seq<seq<nat>>, m: nat, k: nat, n: nat)
    requires IsField(f) && NonZero(f, c, m, k) && 0 < n <= m == |r| && r[0] == c[0]
    requires forall i :: 1 <= i < m ==> NonZeroRow(f, c[i]) && ImprovedRow(f, c[i], r[i])
    requires MDS(f, Generator(c, k), k + m, k)
    ensures Matrix(f, Splice(r, c, n), m, k)
    ensures MDS(f, Generator(Splice(r, c, n), k), k + m, k)
  {
    hide Mul, MDS, RowOnes, ImprovedRow, Generator;
    if n == 1 {
      assert Splice(r, c, 1) == c;
    } else {
      var i, s := n - 1, Splice(r, c, n - 1);
      ImprovedRowsMDS(f, c, r, m, k, i);
      var t := ImprovedRowIsMultiple(f, c[i], r[i]);
      ScaledRowMDS(f, s, m, k, i, t);
      assert Splice(r, c, n) == ScaleRow(f, s, i, t);
    }
  }

  /** Improving an MDS code leaves it MDS. */
  lemma ImprovementKeepsMDS(f: Field, a: seq<seq<nat>>, r: seq<seq<nat>>, m: nat, k: nat)
    requires IsField(f) && NonZero(f, a, m, k) && 0 < m && Improved(f, a, r, m, k)
    requires MDS(f, Generator(a, k), k + m, k)
    ensures MDS(f, Generator(r, k), k + m, k)
  {
    hide Mul, MDS;
    DivideColumnsMDS(f, a, m, k, k);
    ImprovedRowsMDS(f, DivideColumns(f, a, m, k, k), r, m, k, m);
    assert Splice(r, DivideColumns(f, a, m, k, k), m) == r;
  }

  lemma CauchyRowsNonZero(f: Field, x: seq<nat>, y: seq<nat>)
    requires IsField(f) && Apart(f, x, y)
    ensures NonZero(f, CauchyRows(f, x, y), |x|, |y|)
  {
    hide Xor, Mul;
    CauchyRowsAreCauchy(f, x, y);
    forall i, j | 0 <= i < |x| && 0 <= j < |y|
      ensures CauchyRows(f, x, y)[i][j] != 0
    {
      MulZero(f, Xor(x[i], y[j]));
    }
  }

  /** The improvement applies to every Cauchy matrix and leaves it MDS. */
  lemma ImprovedCauchyIsMDS(f: Field, x: seq<nat>, y: seq<nat>, r: seq<seq<nat>>)
    requires IsField(f) && Apart(f, x, y) && 0 < |x|
    ensures NonZero(f, CauchyRows(f, x, y), |x|, |y|)
    ensures Improved(f, CauchyRows(f, x, y), r, |x|, |y|) ==> MDS(f, Generator(r, |y|), |y| + |x|, |y|)
  {
    hide MDS, Improved, CauchyRows;
    CauchyRowsNonZero(f, x, y);
    if Improved(f, CauchyRows(f, x, y), r, |x|, |y|) {
      CauchyRowsAreCauchy(f, x, y);
      CauchyMDS(f, CauchyRows(f, x, y), x, y);
      ImprovementKeepsMDS(f, CauchyRows(f, x, y), r, |x|, |y|);
    }
  }

  /** The improved original matrix is MDS. */
  lemma ImprovedOriginalIsMDS(f: Field, k: nat, m: nat, r: seq<seq<nat>>)
    requires IsField(f) && 0 < m && k + m <= Pow2(f.w)
    ensures Apart(f, FirstWords(m), NextWords(m, k))
    ensures NonZero(f, CauchyRows(f, FirstWords(m), NextWords(m, k)), m, k)
    ensures Improved(f, CauchyRows(f, FirstWords(m), NextWords(m, k)), r, m, k) ==> MDS(f, Generator(r, k), k + m, k)
  {
    WordsApart(f, m, k);
    ImprovedCauchyIsMDS(f, FirstWords(m), NextWords(m, k), r);
  }

  // ---------- the improvement: how it is computed ----------

  lemma {:induction false} RowOnesSnoc(f: Field, row: seq<nat>, j: nat)
    requires f.Valid() && j < |row|
    ensures RowOnes(f, row[..j + 1]) == RowOnes(f, row[..j]) + MatrixOnes(f, row[j], f.w)
  {
    assert row[..j + 1][..j] == row[..j];
  }

  /** The ones in row i of the matrix. */
  method CountRow(memo: Memo, matrix: array<nat>, m: nat, k: nat, i: nat, ghost a: seq<seq<nat>>) returns (no: nat)
    requires memo.Valid() && memo.ones != matrix && Matrix(memo.f, a, m, k) && Flat(matrix[..], a, m, k) && i < m
    modifies memo, memo.ones
    ensures memo.Valid() && no == RowOnes(memo.f, a[i])
  {
    hide Mul, MatrixOnes, Flat, At;
    no := 0;
    for j := 0 to k
      invariant memo.Valid() && no == RowOnes(memo.f, a[i][..j])
    {
      FlatAt(matrix[..], a, m, k, i, j);
      RowOnesSnoc(memo.f, a[i], j);
      var ones := memo.NOnes(matrix[At(i, j, k)]);
      no := no + ones;
    }
    assert a[i][..k] == a[i];
  }

  /** The ones in row i of the matrix times tmp. */
  method CountScaledRow(memo: Memo, matrix: array<nat>, m: nat, k: nat, i: nat, tmp: nat, ghost a: seq<seq<nat>>)
    returns (no: nat)
    requires memo.Valid() && memo.ones != matrix && Matrix(memo.f, a, m, k) && Flat(matrix[..], a, m, k)
    requires i < m && memo.f.Has(tmp)
    modifies memo, memo.ones
    ensures memo.Valid() && no == RowOnes(memo.f, Scale(memo.f, a[i], tmp))
  {
    hide Mul, MatrixOnes, Flat, At;
    ghost var scaled := Scale(memo.f, a[i], tmp);
    no := 0;
    for x := 0 to k
      invariant memo.Valid() && no == RowOnes(memo.f, scaled[..x])
    {
      FlatAt(matrix[..], a, m, k, i, x);
      MulComm(memo.f, a[i][x], tmp);
      MulHas(memo.f, tmp, a[i][x]);
      RowOnesSnoc(memo.f, scaled, x);
      var ones := memo.NOnes(Mul(memo.f, matrix[At(i, x, k)], tmp));
      no := no + ones;
    }
    assert scaled[..k] == scaled;
  }

  lemma ScaleByOneRow(f: Field, row: seq<nat>)
    requires IsField(f) && Vector(f, row, |row|)
    ensures Scale(f, row, 1) == row && Quotient(f, 1, 1) == 1
  {
    hide Mul;
    MulOne(f, Quotient(f, 1, 1));
    forall j | 0 <= j < |row| ensures Scale(f, row, 1)[j] == row[j] { MulOne(f, row[j]); }
  }

  /** The state of the search for the best divisor after entry j. */
  ghost predicate Searched(f: Field, row: seq<nat>, j: nat, bno: nat, best: int)
    requires IsField(f) && NonZeroRow(f, row) && j <= |row|
  {
    if best == -1 then
      bno == RowOnes(f, row) && forall l :: 0 <= l < j ==> bno <= RowOnes(f, Rescaled(f, row, l))
    else
      0 <= best < j && bno == RowOnes(f, Rescaled(f, row, best)) && bno < RowOnes(f, row) &&
      (forall l :: 0 <= l < best ==> bno < RowOnes(f, Rescaled(f, row, l))) &&
      (forall l :: best <= l < j ==> bno <= RowOnes(f, Rescaled(f, row, l)))
  }

  /** The first entry whose division leaves the fewest ones, or -1. */
  method SearchDivisor(memo: Memo, matrix: array<nat>, m: nat, k: nat, i: nat, ghost a: seq<seq<nat>>)
    returns (best: int)
    requires memo.Valid() && memo.ones != matrix && IsField(memo.f) && NonZero(memo.f, a, m, k)
    requires Flat(matrix[..], a, m, k) && i < m
    modifies memo, memo.ones
    ensures memo.Valid() && -1 <= best < k && NonZeroRow(memo.f, a[i])
    ensures exists bno :: Searched(memo.f, a[i], k, bno, best)
  {
    hide Mul, Flat, At, RowOnes, Scale;
    ghost var row := a[i];
    ScaleByOneRow(memo.f, row);
    var bno := CountRow(memo, matrix, m, k, i, a);
    best := -1;
    for j := 0 to k
      invariant memo.Valid() && Searched(memo.f, row, j, bno, best)
    {
      FlatAt(matrix[..], a, m, k, i, j);
      if matrix[At(i, j, k)] != 1 {
        var tmp := Divide(memo.f, 1, matrix[At(i, j, k)]);
        var tno := CountScaledRow(memo, matrix, m, k, i, tmp, a);
        assert tno == RowOnes(memo.f, Rescaled(memo.f, row, j));
        if tno < bno {
          bno := tno;
          best := j;
        }
      } else {
        assert Rescaled(memo.f, row, j) == row;
      }
    }
  }

  /** Row i of the second phase. */
  method ImproveRow(memo: Memo, matrix: array<nat>, m: nat, k: nat, i: nat, ghost a: seq<seq<nat>>)
    returns (ghost r: seq<nat>)
    requires memo.Valid() && memo.ones != matrix && IsField(memo.f) && NonZero(memo.f, a, m, k)
    requires Flat(matrix[..], a, m, k) && i < m
    modifies memo, memo.ones, matrix
    ensures memo.Valid() && NonZeroRow(memo.f, a[i]) && ImprovedRow(memo.f, a[i], r)
    ensures Flat(matrix[..], a[i := r], m, k)
    ensures r == a[i] || exists b :: (
      0 <= b < k && r == Rescaled(memo.f, a[i], b) && Density(memo.f, r) < Density(memo.f, a[i]) &&
      forall j :: 0 <= j < b ==> Density(memo.f, r) < Density(memo.f, Rescaled(memo.f, a[i], j)))
    ensures Density(memo.f, r) <= Density(memo.f, a[i])
    ensures forall j :: 0 <= j < k ==> Density(memo.f, r) <= Density(memo.f, Rescaled(memo.f, a[i], j))
  {
    hide Mul, Flat, At, RowOnes, Scale, Density;
    var best := SearchDivisor(memo, matrix, m, k, i, a);
    r := a[i];
    if best != -1 {
      FlatAt(matrix[..], a, m, k, i, best);
      r := Rescaled(memo.f, a[i], best);
      assert BestDivisor(memo.f, a[i], best);
      var tmp := Divide(memo.f, 1, matrix[At(i, best, k)]);
      ScaleRowInPlace(memo.f, matrix, m, k, i, tmp, a);
    } else {
      assert a[i := r] == a;
    }
    SparsestRow(memo.f, a[i], r);
  }

  /** What an improved row is, counted in its bit matrices: the first sparsest division, if any is sparser. */
  lemma {:induction false} SparsestRow(f: Field, row: seq<nat>, r: seq<nat>)
    requires IsField(f) && NonZeroRow(f, row) && ImprovedRow(f, row, r)
    ensures r == row || exists b :: (
      0 <= b < |row| && r == Rescaled(f, row, b) && Density(f, r) < Density(f, row) &&
      forall j :: 0 <= j < b ==> Density(f, r) < Density(f, Rescaled(f, row, j)))
    ensures Density(f, r) <= Density(f, row)
    ensures forall j :: 0 <= j < |row| ==> Density(f, r) <= Density(f, Rescaled(f, row, j))
  {
    hide Mul, RowOnes, Density, Rescaled;
    RowOnesIsDensity(f, row);
    forall j | 0 <= j < |row|
      ensures RowOnes(f, Rescaled(f, row, j)) == Density(f, Rescaled(f, row, j))
    {
      RowOnesIsDensity(f, Rescaled(f, row, j));
    }
    if r != row {
      var b :| 0 <= b < |row| && BestDivisor(f, row, b) && r == Rescaled(f, row, b);
      assert Density(f, r) < Density(f, row);
    }
  }


  lemma ImprovedRowNonZero(f: Field, row: seq<nat>, r: seq<nat>)
    requires IsField(f) && NonZeroRow(f, row) && ImprovedRow(f, row, r)
    ensures |r| == |row| && NonZeroRow(f, r)
  {
    hide Mul, RowOnes, ImprovedRow;
    var t := ImprovedRowIsMultiple(f, row, r);
    forall j | 0 <= j < |row|
      ensures f.Has(r[j]) && r[j] != 0
    {
      MulHas(f, t, row[j]);
    }
  }

  /** The first phase: row 0 becomes all ones. */
  method DivideColumnsInPlace(f: Field, matrix: array<nat>, m: nat, k: nat, ghost a: seq<seq<nat>>)
    requires IsField(f) && NonZero(f, a, m, k) && 0 < m && Flat(matrix[..], a, m, k)
    modifies matrix
    ensures Flat(matrix[..], DivideColumns(f, a, m, k, k), m, k)
  {
    hide Mul, Flat, At, ScaleColumn;
    for j := 0 to k
      invariant Flat(matrix[..], DivideColumns(f, a, m, k, j), m, k)
    {
      ghost var cur := DivideColumns(f, a, m, k, j);
      FlatAt(matrix[..], cur, m, k, 0, j);
      NextRow(0, j, k);
      DivideColumn(f, matrix, m, k, 0, j, matrix[j], cur);
    }
  }

  /** cauchy_improve_coding_matrix */
  method ImproveCodingMatrix(memo: Memo, matrix: array<nat>, m: nat, k: nat, ghost a: seq<seq<nat>>)
    returns (ghost r: seq<seq<nat>>)
    requires memo.Valid() && memo.ones != matrix && IsField(memo.f) && NonZero(memo.f, a, m, k) && 0 < m
    requires Flat(matrix[..], a, m, k)
    modifies memo, memo.ones, matrix
    ensures memo.Valid() && Improved(memo.f, a, r, m, k) && Flat(matrix[..], r, m, k)
    ensures forall j :: 0 <= j < k ==> |r[0]| == k && r[0][j] == 1
    ensures forall i, j :: 0 <= i < m && 0 <= j < k ==> Mul(memo.f, DivideColumns(memo.f, a, m, k, k)[i][j], a[0][j]) == a[i][j]
    ensures forall i :: 1 <= i < m ==> Density(memo.f, r[i]) <= Density(memo.f, DivideColumns(memo.f, a, m, k, k)[i])
    ensures forall i, j :: 1 <= i < m && 0 <= j < k ==>
      Density(memo.f, r[i]) <= Density(memo.f, Rescaled(memo.f, DivideColumns(memo.f, a, m, k, k)[i], j))
  {
    hide Mul, Flat, At, ImprovedRow, DivideColumns;
    ghost var c := DivideColumns(memo.f, a, m, k, k);
    DivideColumnsInPlace(memo.f, matrix, m, k, a);
    r := c;
    for i := 1 to m
      invariant memo.Valid() && |r| == m && NonZero(memo.f, r, m, k) && Flat(matrix[..], r, m, k)
      invariant forall l :: 1 <= l < i ==> NonZeroRow(memo.f, c[l]) && ImprovedRow(memo.f, c[l], r[l])
      invariant r[0] == c[0] && forall l :: i <= l < m ==> r[l] == c[l]
    {
      ghost var row := ImproveRow(memo, matrix, m, k, i, r);
      ImprovedRowNonZero(memo.f, r[i], row);
      r := r[i := row];
    }
    ImprovementIsLeast(memo.f, a, r, m, k);
    DividedEntries(memo.f, a, m, k, k);
  }
}
