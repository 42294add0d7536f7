/** Positions in a flat array that stores a matrix row by row, row i column j at i * cols + j. */
module Indexing {

  function At(i: nat, j: nat, cols: nat): nat { i * cols + j }

  lemma NextRow(i: nat, j: nat, cols: nat)
    ensures At(i + 1, j, cols) == At(i, j, cols) + cols && At(0, j, cols) == j
  {}

  lemma NextColumn(i: nat, j: nat, cols: nat)
    ensures At(i, j + 1, cols) == At(i, j, cols) + 1
  {}

  lemma Monotone(a: nat, b: nat, n: nat)
    requires a <= b
    ensures a * n <= b * n
  {
    assert b * n == a * n + (b - a) * n;
  }

  lemma Inside(i: nat, j: nat, rows: nat, cols: nat)
    requires i < rows && j < cols
    ensures At(i, j, cols) < rows * cols
  {
    Monotone(i + 1, rows, cols);
  }

  /** An earlier row ends before a later one begins. */
  lemma Before(i: nat, j: nat, k: nat, l: nat, cols: nat)
    requires i < k && j < cols
    ensures At(i, j, cols) < At(k, l, cols)
  {
    Monotone(i + 1, k, cols);
  }

  lemma Unique(i: nat, j: nat, k: nat, l: nat, cols: nat)
    requires j < cols && l < cols && At(i, j, cols) == At(k, l, cols)
    ensures i == k && j == l
  {
    if i < k { Before(i, j, k, l, cols); }
    if k < i { Before(k, l, i, j, cols); }
  }

  /** The array holds the matrix row by row. */
  ghost predicate Flat<T>(a: seq<T>, m: seq<seq<T>>, rows: nat, cols: nat) {
    |a| == rows * cols && |m| == rows && (forall i :: 0 <= i < rows ==> |m[i]| == cols) &&
    forall i: nat, j: nat :: i < rows && j < cols ==> At(i, j, cols) < |a| && a[At(i, j, cols)] == m[i][j]
  }

  /** The same for the cells before row i, column j, in the order of the array. */
  ghost predicate FlatTo<T>(a: seq<T>, m: seq<seq<T>>, rows: nat, cols: nat, i: nat, j: nat) {
    |a| == rows * cols && |m| == rows && (forall r :: 0 <= r < rows ==> |m[r]| == cols) &&
    forall r: nat, c: nat :: r < rows && c < cols && (r < i || (r == i && c < j)) ==>
      At(r, c, cols) < |a| && a[At(r, c, cols)] == m[r][c]
  }

  /** Writing the next cell. */
  lemma FlatToStore<T>(a: seq<T>, m: seq<seq<T>>, rows: nat, cols: nat, i: nat, j: nat)
    requires FlatTo(a, m, rows, cols, i, j) && i < rows && j < cols
    ensures At(i, j, cols) < |a| && At(i, j, cols) + 1 == At(i, j + 1, cols)
    ensures FlatTo(a[At(i, j, cols) := m[i][j]], m, rows, cols, i, j + 1)
  {
    Inside(i, j, rows, cols);
    var b := a[At(i, j, cols) := m[i][j]];
    forall r: nat, c: nat | r < rows && c < cols && (r < i || (r == i && c <= j))
      ensures At(r, c, cols) < |b| && b[At(r, c, cols)] == m[r][c]
    {
      Inside(r, c, rows, cols);
      if At(r, c, cols) == At(i, j, cols) { Unique(r, c, i, j, cols); }
    }
  }

  lemma FlatToRow<T>(a: seq<T>, m: seq<seq<T>>, rows: nat, cols: nat, i: nat)
    requires FlatTo(a, m, rows, cols, i, cols)
    ensures FlatTo(a, m, rows, cols, i + 1, 0) && At(i, cols, cols) == At(i + 1, 0, cols)
  {}

  lemma FlatToAll<T>(a: seq<T>, m: seq<seq<T>>, rows: nat, cols: nat)
    requires FlatTo(a, m, rows, cols, rows, 0)
    ensures Flat(a, m, rows, cols)
  {}

  lemma FlatAt<T>(a: seq<T>, m: seq<seq<T>>, rows: nat, cols: nat, i: nat, j: nat)
    requires Flat(a, m, rows, cols) && i < rows && j < cols
    ensures At(i, j, cols) < |a| && a[At(i, j, cols)] == m[i][j]
  {}
}
