/** reed_sol.c: the distribution matrix built and eliminated in place in a flat array. */
module ReedSol {
  import opened Words
  import opened Indexing
  import opened GaloisField
  import opened Vectors
  import opened Matrices
  import opened Distribution
  import ShiftArithmetic

  function Store(m: seq<seq<nat>>, i: nat, j: nat, x: nat): (r: seq<seq<nat>>)
    requires i < |m| && j < |m[i]|
    ensures |r| == |m|
  {
    var row: seq<nat> := m[i][j := x];
    m[i := row]
  }

  lemma FlatStore(a: seq<nat>, m: seq<seq<nat>>, rows: nat, cols: nat, i: nat, j: nat, x: nat)
    requires Flat(a, m, rows, cols) && i < rows && j < cols
    ensures Flat(a[At(i, j, cols) := x], Store(m, i, j, x), rows, cols)
  {
    var a', m' := a[At(i, j, cols) := x], Store(m, i, j, x);
    forall k: nat, l: nat | k < rows && l < cols
      ensures a'[At(k, l, cols)] == m'[k][l]
    {
      if At(k, l, cols) == At(i, j, cols) { Unique(k, l, i, j, cols); }
    }
  }

  /** galois_single_divide in a field, for a nonzero divisor. */
  method Divide(f: Field, a: nat, b: nat) returns (q: nat)
    requires IsField(f) && f.Has(a) && f.Has(b) && b != 0
    ensures q == Quotient(f, a, b)
  {
    RegularIsInvertible(f, b);
    var r := ShiftArithmetic.ShiftDivide(f, a, b);
    MulZero(f, b);
    q := r.value;
    Cancel(f, q, Quotient(f, a, b), b);
  }

  // ---------- the extended Vandermonde matrix ----------

  /** Row i of the array. */
  ghost predicate RowIs(a: seq<nat>, i: nat, rows: nat, cols: nat, row: seq<nat>) {
    |row| == cols && |a| == rows * cols && forall j: nat :: j < cols && At(i, j, cols) < |a| ==> a[At(i, j, cols)] == row[j]
  }

  ghost predicate RowsAre(a: seq<nat>, rows: nat, cols: nat, m: seq<seq<nat>>, chosen: set<nat>) {
    |m| == rows && forall i :: i in chosen && i < rows ==> RowIs(a, i, rows, cols, m[i])
  }

  lemma RowsAreFlat(a: seq<nat>, rows: nat, cols: nat, m: seq<seq<nat>>, chosen: set<nat>)
    requires |a| == rows * cols && RowsAre(a, rows, cols, m, chosen) && forall i: nat :: i < rows ==> i in chosen && |m[i]| == cols
    ensures Flat(a, m, rows, cols)
  {
    forall i: nat, j: nat | i < rows && j < cols
      ensures At(i, j, cols) < |a| && a[At(i, j, cols)] == m[i][j]
    {
      Inside(i, j, rows, cols);
      assert RowIs(a, i, rows, cols, m[i]);
    }
  }

  /** Writing row i leaves the other rows alone. */
  lemma RowsKept(a: seq<nat>, b: seq<nat>, rows: nat, cols: nat, m: seq<seq<nat>>, chosen: set<nat>, i: nat)
    requires RowsAre(a, rows, cols, m, chosen) && i < rows && |a| == |b| == rows * cols
    requires forall k: nat :: k < |a| && !(At(i, 0, cols) <= k < At(i, 0, cols) + cols) ==> a[k] == b[k]
    requires RowIs(b, i, rows, cols, m[i])
    ensures RowsAre(b, rows, cols, m, chosen + {i})
  {
    forall r | r in chosen && r < rows
      ensures RowIs(b, r, rows, cols, m[r])
    {
      if r != i {
        assert RowIs(a, r, rows, cols, m[r]);
        forall j: nat | j < cols && At(r, j, cols) < |a|
          ensures b[At(r, j, cols)] == m[r][j]
        {
          if r < i { Before(r, j, i, 0, cols); } else { Before(i, cols - 1, r, j, cols); }
        }
      }
    }
  }

  function PowerAt(f: Field, k: nat, b: nat, j: nat): nat
    requires f.Valid()
  {
    if j == 0 then k else Mul(f, PowerAt(f, k, b, j - 1), b)
  }

  lemma {:induction false} PowerAtShift(f: Field, k: nat, b: nat, j: nat)
    requires f.Valid()
    ensures PowerAt(f, k, b, j + 1) == PowerAt(f, Mul(f, k, b), b, j)
  {
    if j > 0 { PowerAtShift(f, k, b, j - 1); }
  }

  lemma {:induction false} PowerRowAt(f: Field, k: nat, b: nat, n: nat, j: nat)
    requires f.Valid() && j < n
    ensures PowerRow(f, k, b, n)[j] == PowerAt(f, k, b, j)
    decreases n
  {
    if j > 0 {
      PowerRowAt(f, Mul(f, k, b), b, n - 1, j - 1);
      PowerAtShift(f, k, b, j - 1);
    }
  }

  /** One row of powers of i. */
  method FillPowerRow(f: Field, vdm: array<nat>, i: nat, rows: nat, cols: nat)
    requires f.Valid() && vdm.Length == rows * cols && i < rows
    modifies vdm
    ensures RowIs(vdm[..], i, rows, cols, PowerRow(f, 1, i, cols))
    ensures forall l: nat :: l < vdm.Length && !(At(i, 0, cols) <= l < At(i, 0, cols) + cols) ==> vdm[l] == old(vdm[l])
  {
    hide Mul, Pow2;
    var k := 1;
    for j := 0 to cols
      invariant k == PowerAt(f, 1, i, j)
      invariant forall l: nat :: l < j && At(i, l, cols) < vdm.Length ==> vdm[At(i, l, cols)] == PowerRow(f, 1, i, cols)[l]
      invariant forall l: nat :: l < vdm.Length && !(At(i, 0, cols) <= l < At(i, 0, cols) + cols) ==> vdm[l] == old(vdm[l])
    {
      Inside(i, j, rows, cols);
      PowerRowAt(f, 1, i, cols, j);
      vdm[At(i, j, cols)] := k;
      k := Mul(f, k, i);
    }
  }

  /** One row that is 0 but for a 1 in column c. */
  method FillUnitRow(vdm: array<nat>, i: nat, c: nat, rows: nat, cols: nat)
    requires vdm.Length == rows * cols && i < rows
    modifies vdm
    ensures RowIs(vdm[..], i, rows, cols, Unit(c, cols))
    ensures forall l: nat :: l < vdm.Length && !(At(i, 0, cols) <= l < At(i, 0, cols) + cols) ==> vdm[l] == old(vdm[l])
  {
    for j := 0 to cols
      invariant forall l: nat :: l < j && At(i, l, cols) < vdm.Length ==> vdm[At(i, l, cols)] == Unit(c, cols)[l]
      invariant forall l: nat :: l < vdm.Length && !(At(i, 0, cols) <= l < At(i, 0, cols) + cols) ==> vdm[l] == old(vdm[l])
    {
      Inside(i, j, rows, cols);
      vdm[At(i, j, cols)] := if j == c then 1 else 0;
    }
  }

  /** Entry by entry: unit rows first and last, and powers of the row number in between. */
  lemma {:induction false} VandermondeEntries(f: Field, a: seq<nat>, rows: nat, cols: nat)
    requires f.Valid() && rows > 0 && cols > 0 && Flat(a, Vandermonde(f, rows, cols), rows, cols)
    ensures forall i: nat, j: nat :: i < rows && j < cols ==> (
      At(i, j, cols) < |a| &&
      (i == 0 ==> a[At(i, j, cols)] == if j == 0 then 1 else 0) &&
      (0 < i == rows - 1 ==> a[At(i, j, cols)] == if j == cols - 1 then 1 else 0) &&
      (0 < i < rows - 1 && j == 0 ==> a[At(i, j, cols)] == 1))
    ensures forall i: nat, j: nat, l: nat :: 0 < i < rows - 1 && l == j + 1 < cols ==> (
      At(i, j, cols) < |a| && At(i, l, cols) < |a| && a[At(i, l, cols)] == Mul(f, a[At(i, j, cols)], i))
  {
    hide Mul, At, PowerRow, Flat;
    var m := Vandermonde(f, rows, cols);
    forall i: nat, j: nat | i < rows && j < cols
      ensures At(i, j, cols) < |a| && a[At(i, j, cols)] == m[i][j]
      ensures 0 < i < rows - 1 && j == 0 ==> m[i][j] == 1
    {
      FlatAt(a, m, rows, cols, i, j);
      PowerRowAt(f, 1, i, cols, 0);
    }
    forall i: nat, j: nat, l: nat | 0 < i < rows - 1 && l == j + 1 < cols
      ensures At(i, j, cols) < |a| && At(i, l, cols) < |a| && a[At(i, l, cols)] == Mul(f, a[At(i, j, cols)], i)
    {
      FlatAt(a, m, rows, cols, i, j);
      FlatAt(a, m, rows, cols, i, l);
      PowerRowAt(f, 1, i, cols, j);
      PowerRowAt(f, 1, i, cols, l);
    }
  }

  /** The rows of the matrix: unit rows first and last, then the powers in between. */
  method FillVandermonde(f: Field, vdm: array<nat>, rows: nat, cols: nat)
    requires f.Valid() && rows > 0 && cols > 0 && vdm.Length == rows * cols
    modifies vdm
    ensures Flat(vdm[..], Vandermonde(f, rows, cols), rows, cols)
  {
    hide Mul, Pow2, At, RowIs, Unit, PowerRow;
    ghost var m := Vandermonde(f, rows, cols);
    ghost var before := vdm[..];
    FillUnitRow(vdm, 0, 0, rows, cols);
    RowsKept(before, vdm[..], rows, cols, m, {}, 0);
    if rows == 1 {
      RowsAreFlat(vdm[..], rows, cols, m, {0});
      return;
    }
    before := vdm[..];
    FillUnitRow(vdm, rows - 1, cols - 1, rows, cols);
    RowsKept(before, vdm[..], rows, cols, m, {0}, rows - 1);
    ghost var done: set<nat> := {0, rows - 1};
    assert {0} + {rows - 1} == done;
    if rows == 2 {
      RowsAreFlat(vdm[..], rows, cols, m, done);
      return;
    }
    for i := 1 to rows - 1
      invariant RowsAre(vdm[..], rows, cols, m, done)
      invariant forall k: nat :: k < i || k == rows - 1 ==> k in done
    {
      before := vdm[..];
      FillPowerRow(f, vdm, i, rows, cols);
      RowsKept(before, vdm[..], rows, cols, m, done, i);
      done := done + {i};
    }
    RowsAreFlat(vdm[..], rows, cols, m, done);
  }

  /** reed_sol_extended_vandermonde_matrix; null when there are more rows or columns than words. */
  method ExtendedVandermonde(f: Field, rows: nat, cols: nat) returns (vdm: array?<nat>)
    requires f.Valid() && rows > 0 && cols > 0 && (f.w >= 30 ==> rows <= Pow2(f.w) + 1)
    ensures vdm == null <==> f.w < 30 && (Pow2(f.w) < rows || Pow2(f.w) < cols)
    ensures vdm != null ==> fresh(vdm) && Flat(vdm[..], Vandermonde(f, rows, cols), rows, cols)
    ensures vdm != null ==> forall i: nat, j: nat :: i < rows && j < cols ==> (
      At(i, j, cols) < vdm.Length &&
      (i == 0 ==> vdm[At(i, j, cols)] == if j == 0 then 1 else 0) &&
      (0 < i == rows - 1 ==> vdm[At(i, j, cols)] == if j == cols - 1 then 1 else 0) &&
      (0 < i < rows - 1 && j == 0 ==> vdm[At(i, j, cols)] == 1))
    ensures vdm != null ==> forall i: nat, j: nat, l: nat :: 0 < i < rows - 1 && l == j + 1 < cols ==> (
      At(i, j, cols) < vdm.Length && At(i, l, cols) < vdm.Length &&
      vdm[At(i, l, cols)] == Mul(f, vdm[At(i, j, cols)], i))
  {
    hide Mul, Pow2, At, Vandermonde, Flat;
    if f.w < 30 && Pow2(f.w) < rows { return null; }
    if f.w < 30 && Pow2(f.w) < cols { return null; }
    vdm := new nat[rows * cols];
    FillVandermonde(f, vdm, rows, cols);
    VandermondeEntries(f, vdm[..], rows, cols);
  }

  // ---------- operations on the flat array ----------

  method SwapRowsInPlace(dist: array<nat>, rows: nat, cols: nat, i: nat, j: nat, ghost m: seq<seq<nat>>)
    requires Flat(dist[..], m, rows, cols) && i < rows && j < rows && i != j
    modifies dist
    ensures Flat(dist[..], SwapRows(m, i, j), rows, cols)
  {
    ghost var cur := m;
    for k := 0 to cols
      invariant Flat(dist[..], cur, rows, cols)
      invariant forall r :: 0 <= r < rows && r != i && r != j ==> cur[r] == m[r]
      invariant forall l :: 0 <= l < cols ==> cur[i][l] == (if l < k then m[j][l] else m[i][l]) &&
                                              cur[j][l] == (if l < k then m[i][l] else m[j][l])
    {
      Inside(i, k, rows, cols);
      Inside(j, k, rows, cols);
      FlatStore(dist[..], cur, rows, cols, j, k, cur[i][k]);
      FlatStore(dist[..][At(j, k, cols) := cur[i][k]], Store(cur, j, k, cur[i][k]), rows, cols, i, k, cur[j][k]);
      if At(i, k, cols) == At(j, k, cols) { Unique(i, k, j, k, cols); }
      var tmp := dist[At(j, k, cols)];
      dist[At(j, k, cols)] := dist[At(i, k, cols)];
      dist[At(i, k, cols)] := tmp;
      cur := Store(Store(cur, j, k, cur[i][k]), i, k, cur[j][k]);
    }
    assert cur == SwapRows(m, i, j) by {
      assert cur[i] == m[j] && cur[j] == m[i];
    }
  }

  /** Multiplies column i by tmp in the rows from `from` on. */
  method ScaleColumnInPlace(f: Field, dist: array<nat>, rows: nat, cols: nat, from: nat, i: nat, tmp: nat, ghost m: seq<seq<nat>>)
    requires f.Valid() && Flat(dist[..], m, rows, cols) && i < cols && from <= rows
    modifies dist
    ensures Flat(dist[..], ScaleColumn(f, m, from, i, tmp), rows, cols)
  {
    hide Mul, At;
    ghost var cur := m;
    var srindex := At(from, i, cols);
    for j := from to rows
      invariant srindex == At(j, i, cols)
      invariant Flat(dist[..], cur, rows, cols)
      invariant forall r :: 0 <= r < rows ==> cur[r] == if from <= r < j then m[r][i := Mul(f, tmp, m[r][i])] else m[r]
    {
      Inside(j, i, rows, cols);
      NextRow(j, i, cols);
      FlatStore(dist[..], cur, rows, cols, j, i, Mul(f, tmp, cur[j][i]));
      dist[srindex] := Mul(f, tmp, dist[srindex]);
      cur := Store(cur, j, i, Mul(f, tmp, cur[j][i]));
      srindex := srindex + cols;
    }
    assert cur == ScaleColumn(f, m, from, i, tmp);
  }

  /** Adds tmp times column i to column j. */
  method AddColumnInPlace(f: Field, dist: array<nat>, rows: nat, cols: nat, i: nat, j: nat, tmp: nat, ghost m: seq<seq<nat>>)
    requires f.Valid() && Flat(dist[..], m, rows, cols) && i < cols && j < cols && i != j
    modifies dist
    ensures Flat(dist[..], AddColumn(f, m, i, j, tmp), rows, cols)
  {
    hide Mul, Xor, At;
    ghost var cur := m;
    var srindex := j;
    var siindex := i;
    NextRow(0, j, cols);
    NextRow(0, i, cols);
    for k := 0 to rows
      invariant srindex == At(k, j, cols) && siindex == At(k, i, cols)
      invariant Flat(dist[..], cur, rows, cols)
      invariant forall r :: 0 <= r < rows ==> cur[r] == if r < k then m[r][j := Xor(m[r][j], Mul(f, tmp, m[r][i]))] else m[r]
    {
      Inside(k, i, rows, cols);
      Inside(k, j, rows, cols);
      NextRow(k, j, cols);
      NextRow(k, i, cols);
      ghost var x := Xor(cur[k][j], Mul(f, tmp, cur[k][i]));
      FlatStore(dist[..], cur, rows, cols, k, j, x);
      dist[srindex] := Xor(dist[srindex], Mul(f, tmp, dist[siindex]));
      cur := Store(cur, k, j, x);
      srindex := srindex + cols;
      siindex := siindex + cols;
    }
    assert cur == AddColumn(f, m, i, j, tmp);
  }

  /** Multiplies row i by tmp. */
  method ScaleRowInPlace(f: Field, dist: array<nat>, rows: nat, cols: nat, i: nat, tmp: nat, ghost m: seq<seq<nat>>)
    requires f.Valid() && Flat(dist[..], m, rows, cols) && Matrix(f, m, rows, cols) && i < rows && f.Has(tmp)
    modifies dist
    ensures Flat(dist[..], ScaleRow(f, m, i, tmp), rows, cols)
  {
    hide Mul;
    ghost var cur := m;
    for j := 0 to cols
      invariant Flat(dist[..], cur, rows, cols)
      invariant forall r :: 0 <= r < rows && r != i ==> cur[r] == m[r]
      invariant forall l :: 0 <= l < cols ==> cur[i][l] == if l < j then Mul(f, tmp, m[i][l]) else m[i][l]
    {
      Inside(i, j, rows, cols);
      MulComm(f, tmp, m[i][j]);
      FlatStore(dist[..], cur, rows, cols, i, j, Mul(f, tmp, cur[i][j]));
      dist[At(i, j, cols)] := Mul(f, dist[At(i, j, cols)], tmp);
      cur := Store(cur, i, j, Mul(f, tmp, cur[i][j]));
    }
    assert cur[i] == Scale(f, m[i], tmp);
    assert cur == ScaleRow(f, m, i, tmp);
  }

  // ---------- reed_sol_big_vandermonde_distribution_matrix ----------

  lemma ScaleByOne(f: Field, m: seq<seq<nat>>, rows: nat, cols: nat, from: nat, i: nat)
    requires IsField(f) && Matrix(f, m, rows, cols) && i < cols
    ensures Quotient(f, 1, 1) == 1 && ScaleColumn(f, m, from, i, 1) == m
  {
    hide Mul;
    MulOne(f, Quotient(f, 1, 1));
    forall r | 0 <= r < rows
      ensures ScaleColumn(f, m, from, i, 1)[r] == m[r]
    {
      MulOne(f, m[r][i]);
    }
  }

  lemma ScaleRowByOne(f: Field, m: seq<seq<nat>>, rows: nat, cols: nat, i: nat)
    requires IsField(f) && Matrix(f, m, rows, cols) && i < rows
    ensures Quotient(f, 1, 1) == 1 && ScaleRow(f, m, i, 1) == m
  {
    hide Mul;
    MulOne(f, Quotient(f, 1, 1));
    forall j | 0 <= j < cols
      ensures Scale(f, m[i], 1)[j] == m[i][j]
    {
      MulOne(f, m[i][j]);
    }
    assert Scale(f, m[i], 1) == m[i];
  }

  /** The pivot search: row j is the first from i on with a nonzero entry in column i. */
  method SearchPivot(f: Field, dist: array<nat>, rows: nat, cols: nat, i: nat, ghost m: seq<seq<nat>>)
    returns (j: nat)
    requires Flat(dist[..], m, rows, cols) && i < cols < rows
    ensures j == FindPivot(m, i, i) && i <= j <= rows
    ensures (forall k :: i <= k < j ==> m[k][i] == 0) && (j < rows ==> m[j][i] != 0)
  {
    hide At;
    j := i;
    Inside(i, i, rows, cols);
    var srindex := At(i, i, cols);
    while j < rows && dist[srindex] == 0
      invariant i <= j <= rows && srindex == At(j, i, cols)
      invariant j < rows ==> srindex < dist.Length
      invariant FindPivot(m, i, j) == FindPivot(m, i, i)
    {
      assert dist[..][At(j, i, cols)] == m[j][i];
      NextRow(j, i, cols);
      srindex := srindex + cols;
      j := j + 1;
      if j < rows { Inside(j, i, rows, cols); }
    }
    if j < rows { assert dist[..][At(j, i, cols)] == m[j][i]; }
  }

  /** Adds multiples of column i to the others so that row i becomes zero outside the pivot. */
  method ClearRowInPlace(f: Field, dist: array<nat>, rows: nat, cols: nat, i: nat, ghost m: seq<seq<nat>>)
    requires IsField(f) && Matrix(f, m, rows, cols) && Flat(dist[..], m, rows, cols) && i < cols < rows
    modifies dist
    ensures Flat(dist[..], ClearRow(f, m, i, cols), rows, cols)
  {
    hide Mul, Xor, At, AddColumn;
    for c := 0 to cols
      invariant Flat(dist[..], ClearRow(f, m, i, c), rows, cols)
    {
      Inside(i, c, rows, cols);
      ClearRowMatrix(f, m, rows, cols, i, c);
      ghost var cur := ClearRow(f, m, i, c);
      var tmp := dist[At(i, c, cols)];
      assert tmp == cur[i][c];
      if c != i && tmp != 0 {
        AddColumnInPlace(f, dist, rows, cols, i, c, tmp, cur);
      } else if c != i {
        AddNothing(f, cur, i, c);
      }
    }
  }

  /** Divides column i, in the rows from `from` on, by a nonzero entry of it, unless that is 1. */
  method DivideColumn(f: Field, dist: array<nat>, rows: nat, cols: nat, from: nat, i: nat, tmp: nat, ghost m: seq<seq<nat>>)
    requires IsField(f) && Matrix(f, m, rows, cols) && Flat(dist[..], m, rows, cols) && i < cols && from <= rows
    requires f.Has(tmp) && tmp != 0
    modifies dist
    ensures Flat(dist[..], ScaleColumn(f, m, from, i, Quotient(f, 1, tmp)), rows, cols)
  {
    hide Mul, Xor, At, ScaleColumn;
    if tmp != 1 {
      var inverse := Divide(f, 1, tmp);
      ScaleColumnInPlace(f, dist, rows, cols, from, i, inverse, m);
    } else {
      ScaleByOne(f, m, rows, cols, from, i);
    }
  }

  method DivideRow(f: Field, dist: array<nat>, rows: nat, cols: nat, i: nat, tmp: nat, ghost m: seq<seq<nat>>)
    requires IsField(f) && Matrix(f, m, rows, cols) && Flat(dist[..], m, rows, cols) && i < rows
    requires f.Has(tmp) && tmp != 0
    modifies dist
    ensures Flat(dist[..], ScaleRow(f, m, i, Quotient(f, 1, tmp)), rows, cols)
  {
    hide Mul, Xor, At, ScaleRow;
    if tmp != 1 {
      var inverse := Divide(f, 1, tmp);
      ScaleRowInPlace(f, dist, rows, cols, i, inverse, m);
    } else {
      ScaleRowByOne(f, m, rows, cols, i);
    }
  }

  /** One pass of the elimination loop; false is the call of exit(1). */
  method EliminationStage(f: Field, dist: array<nat>, rows: nat, cols: nat, i: nat, ghost m: seq<seq<nat>>)
    returns (ok: bool)
    requires IsField(f) && Matrix(f, m, rows, cols) && Flat(dist[..], m, rows, cols) && i < cols < rows
    modifies dist
    ensures ok <==> Stage(f, m, rows, cols, i).Some?
    ensures ok ==> Flat(dist[..], Stage(f, m, rows, cols, i).value, rows, cols)
  {
    hide Mul, Xor, At, ScaleColumn, ClearRow, FindPivot;
    var j := SearchPivot(f, dist, rows, cols, i, m);
    if j >= rows { return false; }
    ghost var s := SwapRows(m, i, j);
    if j != i {
      SwapRowsInPlace(dist, rows, cols, i, j, m);
    } else {
      assert s == m;
    }
    assert Matrix(f, s, rows, cols);
    Inside(i, i, rows, cols);
    var pivot := dist[At(i, i, cols)];
    assert pivot == s[i][i];
    DivideColumn(f, dist, rows, cols, 0, i, pivot, s);
    ScaleColumnMatrix(f, s, rows, cols, i, Quotient(f, 1, pivot));
    ClearRowInPlace(f, dist, rows, cols, i, ScaleColumn(f, s, 0, i, Quotient(f, 1, pivot)));
    ok := true;
  }

  lemma AddNothing(f: Field, m: seq<seq<nat>>, i: nat, j: nat)
    requires f.Valid() && forall k :: 0 <= k < |m| ==> i < |m[k]| && j < |m[k]|
    ensures AddColumn(f, m, i, j, 0) == m
  {
    forall k | 0 <= k < |m|
      ensures AddColumn(f, m, i, j, 0)[k] == m[k]
    {
      MulZero(f, m[k][i]);
      XorZero(m[k][j]);
    }
  }

  datatype Outcome = Built(dist: array<nat>) | Null | Exit

  /** Makes row cols all ones by dividing the columns below the unit rows. */
  method NormalizeColumnsInPlace(f: Field, dist: array<nat>, rows: nat, cols: nat, ghost m: seq<seq<nat>>)
    requires IsField(f) && Systematic(f, m, rows, cols) && Flat(dist[..], m, rows, cols) && 0 < cols < rows
    requires forall j :: 0 <= j < cols ==> m[cols][j] != 0
    modifies dist
    ensures Flat(dist[..], NormalizeColumns(f, m, rows, cols, cols), rows, cols)
  {
    hide Mul, Xor, At, MDS, ScaleColumn, UnitRows;
    var sindex := At(cols, 0, cols);
    for j := 0 to cols
      invariant sindex == At(cols, j, cols)
      invariant Flat(dist[..], NormalizeColumns(f, m, rows, cols, j), rows, cols)
    {
      Inside(cols, j, rows, cols);
      NextColumn(cols, j, cols);
      NormalizeColumnsCorrect(f, m, rows, cols, j);
      ghost var cur := NormalizeColumns(f, m, rows, cols, j);
      var tmp := dist[sindex];
      assert tmp == cur[cols][j];
      DivideColumn(f, dist, rows, cols, cols, j, tmp, cur);
      sindex := sindex + 1;
    }
  }

  /** Makes the first column of the later coding rows all ones. */
  method NormalizeRowsInPlace(f: Field, dist: array<nat>, rows: nat, cols: nat, ghost m: seq<seq<nat>>)
    requires IsField(f) && Systematic(f, m, rows, cols) && Flat(dist[..], m, rows, cols) && 0 < cols < rows
    requires forall i :: cols < i < rows ==> m[i][0] != 0
    modifies dist
    ensures Flat(dist[..], NormalizeRows(f, m, rows, cols, rows), rows, cols)
  {
    hide Mul, Xor, At, MDS, ScaleRow, UnitRows;
    var sindex := At(cols + 1, 0, cols);
    for i := cols + 1 to rows
      invariant sindex == At(i, 0, cols)
      invariant Flat(dist[..], NormalizeRows(f, m, rows, cols, i), rows, cols)
    {
      Inside(i, 0, rows, cols);
      NextRow(i, 0, cols);
      NormalizeRowsCorrect(f, m, rows, cols, i);
      ghost var cur := NormalizeRows(f, m, rows, cols, i);
      var tmp := dist[sindex];
      assert tmp == cur[i][0] == m[i][0];
      DivideRow(f, dist, rows, cols, i, tmp, cur);
      sindex := sindex + cols;
    }
  }

  /** The elimination loop; false is the call of exit(1). */
  method Eliminate(f: Field, dist: array<nat>, rows: nat, cols: nat) returns (ok: bool)
    requires IsField(f) && 0 < cols < rows <= Pow2(f.w) + 1 && Flat(dist[..], Vandermonde(f, rows, cols), rows, cols)
    modifies dist
    ensures ok <==> Stages(f, rows, cols, cols).Some?
    ensures ok ==> Flat(dist[..], Stages(f, rows, cols, cols).value, rows, cols)
  {
    hide Mul, Xor, At, Pow2, Stage, Vandermonde;
    StagesStart(f, rows, cols);
    for i := 1 to cols
      invariant Stages(f, rows, cols, i).Some?
      invariant Flat(dist[..], Stages(f, rows, cols, i).value, rows, cols)
    {
      ok := EliminationStage(f, dist, rows, cols, i, Stages(f, rows, cols, i).value);
      if !ok {
        StagesFail(f, rows, cols, i + 1, cols);
        return;
      }
    }
    ok := true;
  }

  /** Null when the sizes do not fit, else the flat matrix; exit(1) is never reached. */
  method BigVandermondeDistribution(f: Field, rows: nat, cols: nat) returns (r: Outcome)
    requires IsField(f) && cols > 0 && (f.w >= 30 ==> rows <= Pow2(f.w) + 1)
    ensures !r.Exit? && (r.Null? <==> cols >= rows || (f.w < 30 && Pow2(f.w) < rows))
    ensures r.Built? ==> fresh(r.dist) && Flat(r.dist[..], DistributionMatrix(f, rows, cols), rows, cols)
  {
    hide Mul, Xor, At, Pow2, MDS, UnitRows, Stage, Vandermonde;
    if cols >= rows { return Null; }
    var dist := ExtendedVandermonde(f, rows, cols);
    if dist == null { return Null; }
    var ok := Eliminate(f, dist, rows, cols);
    if ok {
      ghost var m := Stages(f, rows, cols, cols).value;
      StagesReady(f, rows, cols, cols);
      NormalizeColumnsCorrect(f, m, rows, cols, cols);
      NormalizeColumnsInPlace(f, dist, rows, cols, m);
      ghost var c := NormalizeColumns(f, m, rows, cols, cols);
      NormalizeRowsCorrect(f, c, rows, cols, rows);
      NormalizeRowsInPlace(f, dist, rows, cols, c);
      r := Built(dist);
    } else {
      r := Exit;
    }
    NeverExits(f, rows, cols);
  }

  lemma {:induction false} StagesStart(f: Field, rows: nat, cols: nat)
    requires IsField(f) && 1 <= cols < rows <= Pow2(f.w) + 1
    ensures Stages(f, rows, cols, 1) == Some(Vandermonde(f, rows, cols))
  {
    hide Mul, Xor, Stage, Vandermonde;
  }

  /** Once a stage has failed the elimination has failed. */
  lemma {:induction false} StagesFail(f: Field, rows: nat, cols: nat, i: nat, n: nat)
    requires IsField(f) && 1 <= i <= n <= cols < rows <= Pow2(f.w) + 1 && Stages(f, rows, cols, i).None?
    ensures Stages(f, rows, cols, n).None?
  {
    hide Mul, Xor, Stage, Vandermonde;
    if i < n { StagesFail(f, rows, cols, i, n - 1); }
  }

  /** reed_sol_vandermonde_coding_matrix: the last m rows of the distribution matrix. */
  method VandermondeCodingMatrix(f: Field, k: nat, m: nat) returns (r: Outcome)
    requires IsField(f) && k > 0 && (f.w >= 30 ==> k + m <= Pow2(f.w) + 1)
    ensures !r.Exit? && (r.Null? <==> m == 0 || (f.w < 30 && Pow2(f.w) < k + m))
    ensures r.Built? ==> fresh(r.dist) && Flat(r.dist[..], DistributionMatrix(f, k + m, k)[k..], m, k)
  {
    hide Mul, Pow2, DistributionMatrix, At, Flat, Stages, MDS, UnitRows;
    r := BigVandermondeDistribution(f, k + m, k);
    if !r.Built? { return; }
    ghost var full := DistributionMatrix(f, k + m, k);
    FlatLength(r.dist[..], full, k, m);
    var dist := CopyTail(r.dist, k * k, m * k);
    FlatTail(r.dist[..], dist[..], full, k, m);
    r := Built(dist);
  }

  method CopyTail(vdm: array<nat>, start: nat, count: nat) returns (dist: array<nat>)
    requires start + count == vdm.Length
    ensures fresh(dist) && dist.Length == count && forall l :: 0 <= l < count ==> dist[l] == vdm[start + l]
  {
    dist := new nat[count];
    var i := start;
    for j := 0 to count
      invariant i == start + j && forall l :: 0 <= l < j ==> dist[l] == vdm[start + l]
    {
      dist[j] := vdm[i];
      i := i + 1;
    }
  }

  lemma FlatLength(a: seq<nat>, full: seq<seq<nat>>, k: nat, m: nat)
    requires Flat(a, full, k + m, k)
    ensures |a| == k * k + m * k
  {
    RowSplit(k, m);
  }

  lemma RowSplit(k: nat, m: nat)
    ensures (k + m) * k == k * k + m * k
  {}

  lemma FlatTail(a: seq<nat>, b: seq<nat>, full: seq<seq<nat>>, k: nat, m: nat)
    requires Flat(a, full, k + m, k) && |b| == m * k && |a| == k * k + m * k
    requires forall l :: 0 <= l < m * k ==> b[l] == a[k * k + l]
    ensures Flat(b, full[k..], m, k)
  {
    forall i: nat, j: nat | i < m && j < k
      ensures At(i, j, k) < |b| && b[At(i, j, k)] == full[k..][i][j]
    {
      Inside(i, j, m, k);
      assert At(k + i, j, k) == k * k + At(i, j, k) by { RowSplit(k, i); }
    }
  }

  /** The matrix is always built, whatever sizes fit: no stage of the elimination exits. */
  lemma {:induction false} NeverExits(f: Field, rows: nat, cols: nat)
    requires IsField(f) && 0 < cols < rows <= Pow2(f.w) + 1
    ensures Stages(f, rows, cols, cols).Some?
  {
    StagesReady(f, rows, cols, cols);
  }
}
