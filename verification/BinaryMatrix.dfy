/** Square matrices over GF(2) whose rows are words, and galois_invert_binary_matrix. */
module BinaryMatrix {
  import opened Words

  /** The sum of the rows picked by the first n bits of x: the row vector x times the matrix. */
  function Combine(x: nat, rows: seq<nat>, n: nat): nat
    requires n <= |rows|
  {
    if n == 0 then 0 else Xor(Combine(x, rows, n - 1), if Bit(x, n - 1) then rows[n - 1] else 0)
  }

  /** The product of row a with the column vector x, over their first n bits. */
  predicate Dot(a: nat, x: nat, n: nat) {
    if n == 0 then false else Dot(a, x, n - 1) != (Bit(a, n - 1) && Bit(x, n - 1))
  }

  ghost predicate InKernel(m: seq<nat>, x: nat, n: nat)
    requires n <= |m|
  {
    forall r :: 0 <= r < n ==> !Dot(m[r], x, n)
  }

  /** Some nonzero column vector is sent to zero. */
  ghost predicate Singular(m: seq<nat>, n: nat)
    requires n <= |m|
  {
    exists x :: 0 < x < Pow2(n) && InKernel(m, x, n)
  }

  /** v times m is the identity matrix on the first n bits. */
  ghost predicate IsInverse(v: seq<nat>, m: seq<nat>, n: nat)
    requires n <= |m| && n <= |v|
  {
    forall r: nat, c: nat :: r < n && c < n ==> (Bit(Combine(v[r], m, n), c) <==> r == c)
  }

  // ---------- linearity ----------

  lemma {:induction false} CombineXor(x: nat, y: nat, rows: seq<nat>, n: nat)
    requires n <= |rows|
    ensures Combine(Xor(x, y), rows, n) == Xor(Combine(x, rows, n), Combine(y, rows, n))
  {
    if n == 0 {
      XorZero(0);
    } else {
      CombineXor(x, y, rows, n - 1);
      BitXor(x, y, n - 1);
      XorGuarded(rows[n - 1], Bit(x, n - 1), Bit(y, n - 1));
      XorSwap(Combine(x, rows, n - 1), if Bit(x, n - 1) then rows[n - 1] else 0,
              Combine(y, rows, n - 1), if Bit(y, n - 1) then rows[n - 1] else 0);
    }
  }

  lemma {:induction false} CombinePow2(i: nat, rows: seq<nat>, n: nat)
    requires n <= |rows|
    ensures Combine(Pow2(i), rows, n) == if i < n then rows[i] else 0
  {
    if n > 0 {
      CombinePow2(i, rows, n - 1);
      BitPow2(n - 1, i);
      XorZero(rows[n - 1]);
      XorZero(Combine(Pow2(i), rows, n - 1));
    }
  }

  lemma {:induction false} CombineBound(x: nat, rows: seq<nat>, n: nat, w: nat)
    requires n <= |rows| && forall i :: 0 <= i < n ==> rows[i] < Pow2(w)
    ensures Combine(x, rows, n) < Pow2(w)
  {
    if n > 0 {
      CombineBound(x, rows, n - 1, w);
      XorBound(Combine(x, rows, n - 1), if Bit(x, n - 1) then rows[n - 1] else 0, w);
    }
  }

  lemma {:induction false} DotXor(a: nat, b: nat, x: nat, n: nat)
    ensures Dot(Xor(a, b), x, n) == (Dot(a, x, n) != Dot(b, x, n))
  {
    if n > 0 {
      DotXor(a, b, x, n - 1);
      BitXor(a, b, n - 1);
    }
  }

  lemma {:induction false} DotComm(a: nat, x: nat, n: nat)
    ensures Dot(a, x, n) == Dot(x, a, n)
  {
    if n > 0 { DotComm(a, x, n - 1); }
  }

  lemma {:induction false} DotZero(x: nat, n: nat)
    ensures !Dot(0, x, n)
  {
    if n > 0 { DotZero(x, n - 1); BitZero(n - 1); }
  }

  /** A row that, on its first n bits, is the unit row c reads off bit c. */
  lemma {:induction false} DotUnit(a: nat, c: nat, x: nat, n: nat)
    requires forall i: nat :: i < n ==> (Bit(a, i) <==> i == c)
    ensures Dot(a, x, n) == (c < n && Bit(x, c))
  {
    if n > 0 { DotUnit(a, c, x, n - 1); }
  }

  /** Row a meets x nowhere. */
  lemma {:induction false} DotDisjoint(a: nat, x: nat, n: nat)
    requires forall i: nat :: i < n ==> !(Bit(a, i) && Bit(x, i))
    ensures !Dot(a, x, n)
  {
    if n > 0 { DotDisjoint(a, x, n - 1); }
  }

  lemma {:induction false} DotCombine(v: nat, rows: seq<nat>, k: nat, x: nat, n: nat)
    requires k <= |rows| && forall r :: 0 <= r < k ==> !Dot(rows[r], x, n)
    ensures !Dot(Combine(v, rows, k), x, n)
  {
    if k == 0 {
      DotZero(x, n);
    } else {
      DotCombine(v, rows, k - 1, x, n);
      DotZero(x, n);
      DotXor(Combine(v, rows, k - 1), if Bit(v, k - 1) then rows[k - 1] else 0, x, n);
    }
  }

  // ---------- row operations ----------

  function SwapRows(m: seq<nat>, i: nat, j: nat): seq<nat>
    requires i < |m| && j < |m|
  {
    m[i := m[j]][j := m[i]]
  }

  function AddRow(m: seq<nat>, j: nat, i: nat): seq<nat>
    requires i < |m| && j < |m|
  {
    m[j := Xor(m[j], m[i])]
  }

  /** Row r of m is the combination of the rows of m0 that v records. */
  ghost predicate Tracks(v: seq<nat>, m: seq<nat>, m0: seq<nat>, n: nat) {
    |v| >= n && |m| >= n && |m0| >= n && forall r :: 0 <= r < n ==> Combine(v[r], m0, n) == m[r]
  }

  ghost predicate SameKernel(m: seq<nat>, m0: seq<nat>, n: nat) {
    n <= |m| && n <= |m0| && forall x :: InKernel(m, x, n) <==> InKernel(m0, x, n)
  }

  /** The first i columns are those of an upper triangular matrix with ones on its diagonal. */
  ghost predicate Upper(m: seq<nat>, i: nat, n: nat) {
    i <= n <= |m| && forall c: nat, r: nat :: c < i && c <= r < n ==> (Bit(m[r], c) <==> r == c)
  }

  ghost predicate Bounded(v: seq<nat>, n: nat) {
    n <= |v| && forall r :: 0 <= r < n ==> v[r] < Pow2(n)
  }

  /** What the elimination keeps. */
  ghost predicate Reduced(v: seq<nat>, m: seq<nat>, m0: seq<nat>, i: nat, n: nat) {
    Tracks(v, m, m0, n) && SameKernel(m, m0, n) && Upper(m, i, n) && Bounded(v, n)
  }

  lemma SwapKeeps(v: seq<nat>, m: seq<nat>, m0: seq<nat>, i: nat, j: nat, n: nat)
    requires Reduced(v, m, m0, i, n) && i < j < n
    ensures Reduced(SwapRows(v, i, j), SwapRows(m, i, j), m0, i, n)
  {
    var m' := SwapRows(m, i, j);
    forall x
      ensures InKernel(m', x, n) <==> InKernel(m0, x, n)
    {
      assert InKernel(m, x, n) <==> InKernel(m0, x, n);
      assert m'[i] == m[j] && m'[j] == m[i];
      if InKernel(m', x, n) {
        forall r | 0 <= r < n
          ensures !Dot(m[r], x, n)
        {
          assert m[r] == m'[if r == i then j else if r == j then i else r];
        }
      }
    }
  }

  lemma AddKeeps(v: seq<nat>, m: seq<nat>, m0: seq<nat>, i: nat, j: nat, n: nat)
    requires Reduced(v, m, m0, i, n) && i < j < n
    ensures Reduced(AddRow(v, j, i), AddRow(m, j, i), m0, i, n)
  {
    var m' := AddRow(m, j, i);
    CombineXor(v[j], v[i], m0, n);
    XorBound(v[j], v[i], n);
    forall x
      ensures InKernel(m', x, n) <==> InKernel(m0, x, n)
    {
      assert InKernel(m, x, n) <==> InKernel(m0, x, n);
      DotXor(m[j], m[i], x, n);
      assert m'[i] == m[i];
      if InKernel(m', x, n) {
        forall r | 0 <= r < n
          ensures !Dot(m[r], x, n)
        {
          assert m'[r] == if r == j then Xor(m[j], m[i]) else m[r];
        }
      }
    }
    forall c: nat, r: nat | c < i && c <= r < n
      ensures Bit(m'[r], c) <==> r == c
    {
      BitXor(m[j], m[i], c);
      assert !Bit(m[i], c) && !Bit(m[j], c);
    }
  }

  // ---------- failure means singular ----------

  /** Solves rows c, ..., i - 1 of an upper triangular matrix for a vector whose bit i is set. */
  lemma {:induction false} BackSolve(m: seq<nat>, c: nat, i: nat, n: nat) returns (x: nat)
    requires Upper(m, i, n) && c <= i < n
    ensures x < Pow2(n) && Bit(x, i) && forall k: nat :: k < c || i < k ==> !Bit(x, k)
    ensures forall r :: c <= r < i ==> !Dot(m[r], x, n)
    decreases i - c
  {
    if c == i {
      x := Pow2(i);
      Pow2Increasing(i, n);
      forall k: nat ensures Bit(x, k) <==> k == i { BitPow2(k, i); }
    } else {
      x := BackSolve(m, c + 1, i, n);
      if Dot(m[c], x, n) {
        var p := Pow2(c);
        var y := Xor(x, p);
        Pow2Increasing(c, n);
        XorBound(x, p, n);
        forall k: nat
          ensures Bit(p, k) <==> k == c
          ensures Bit(y, k) == (Bit(x, k) != (k == c))
        {
          BitPow2(k, c);
          BitXor(x, p, k);
        }
        forall r | c <= r < i
          ensures !Dot(m[r], y, n)
        {
          DotComm(m[r], y, n);
          DotComm(m[r], x, n);
          DotXor(x, p, m[r], n);
          DotUnit(p, c, m[r], n);
        }
        x := y;
      }
    }
  }

  /** With no pivot left in column i the matrix is singular. */
  lemma {:induction false} NoPivotIsSingular(v: seq<nat>, m: seq<nat>, m0: seq<nat>, i: nat, n: nat)
    requires Reduced(v, m, m0, i, n) && i < n
    requires forall r: nat :: i <= r < n ==> !Bit(m[r], i)
    ensures Singular(m0, n)
  {
    var x := BackSolve(m, 0, i, n);
    BitZero(i);
    forall r: nat | i <= r < n
      ensures !Dot(m[r], x, n)
    {
      forall k: nat | k < n
        ensures !(Bit(m[r], k) && Bit(x, k))
      {
      }
      DotDisjoint(m[r], x, n);
    }
    assert InKernel(m, x, n);
  }

  /** A matrix with a left inverse has no kernel. */
  lemma InverseIsRegular(v: seq<nat>, m: seq<nat>, n: nat)
    requires n <= |m| && n <= |v| && IsInverse(v, m, n)
    ensures !Singular(m, n)
  {
    forall x | 0 < x < Pow2(n)
      ensures !InKernel(m, x, n)
    {
      if InKernel(m, x, n) {
        var i := NonzeroHasBit(x, n);
        DotCombine(v[i], m, n, x, n);
        DotUnit(Combine(v[i], m, n), i, x, n);
      }
    }
  }

  // ---------- galois_invert_binary_matrix ----------

  /** State of the back-substitution once the columns after i are cleared: `inv` times m0 has unit
      columns there and still the columns of the triangular matrix u before. */
  ghost predicate Cleared(v: seq<nat>, u: seq<nat>, m0: seq<nat>, i: int, n: nat) {
    n <= |v| && n <= |u| && n <= |m0| &&
    forall r: nat, c: nat :: r < n && c < n ==>
      (Bit(Combine(v[r], m0, n), c) <==> if c > i then r == c else Bit(u[r], c))
  }

  /** The same state in the middle of column i, with rows below j done. */
  ghost predicate ClearedTo(v: seq<nat>, u: seq<nat>, m0: seq<nat>, i: nat, j: nat, n: nat) {
    n <= |v| && n <= |u| && n <= |m0| &&
    forall r: nat, c: nat :: r < n && c < n ==>
      (Bit(Combine(v[r], m0, n), c) <==> if c > i || (c == i && r < j) then r == c else Bit(u[r], c))
  }

  lemma {:induction false} ClearStep(v: seq<nat>, u: seq<nat>, m0: seq<nat>, i: nat, j: nat, n: nat)
    requires Upper(u, n, n) && ClearedTo(v, u, m0, i, j, n) && j < i < n
    ensures ClearedTo(if Bit(u[j], i) then AddRow(v, j, i) else v, u, m0, i, j + 1, n)
  {
    if Bit(u[j], i) {
      CombineXor(v[j], v[i], m0, n);
      var a, b := Combine(v[j], m0, n), Combine(v[i], m0, n);
      forall c: nat | c < n
        ensures Bit(Xor(a, b), c) <==> if c >= i then j == c else Bit(u[j], c)
      {
        BitXor(a, b, c);
        assert Bit(b, c) <==> c == i;
      }
    }
  }

  /** Column i of the elimination: finds a pivot, swaps it into row i, clears the column below it. */
  method PivotColumn(mat: array<nat>, inv: array<nat>, i: nat, rows: nat, ghost m0: seq<nat>)
    returns (ok: bool)
    requires rows <= mat.Length && rows <= inv.Length && mat != inv && i < rows
    requires Reduced(inv[..], mat[..], m0, i, rows)
    modifies mat, inv
    ensures ok ==> Reduced(inv[..], mat[..], m0, i + 1, rows)
    ensures !ok ==> Singular(m0, rows)
  {
    if !Bit(mat[i], i) {
      var j := i + 1;
      while j < rows && !Bit(mat[j], i)
        invariant i < j <= rows
        invariant forall r: nat :: i <= r < j ==> !Bit(mat[r], i)
      {
        j := j + 1;
      }
      if j == rows {
        NoPivotIsSingular(inv[..], mat[..], m0, i, rows);
        return false;
      }
      SwapKeeps(inv[..], mat[..], m0, i, j, rows);
      ghost var v, m := inv[..], mat[..];
      mat[i], mat[j] := mat[j], mat[i];
      inv[i], inv[j] := inv[j], inv[i];
      assert mat[..] == SwapRows(m, i, j) && inv[..] == SwapRows(v, i, j);
    }
    ClearBelow(mat, inv, i, rows, m0);
    ok := true;
  }

  method ClearBelow(mat: array<nat>, inv: array<nat>, i: nat, rows: nat, ghost m0: seq<nat>)
    requires rows <= mat.Length && rows <= inv.Length && mat != inv && i < rows
    requires Reduced(inv[..], mat[..], m0, i, rows) && Bit(mat[i], i)
    modifies mat, inv
    ensures Reduced(inv[..], mat[..], m0, i + 1, rows)
  {
    var j := i + 1;
    while j != rows
      invariant i < j <= rows
      invariant Reduced(inv[..], mat[..], m0, i, rows) && Bit(mat[i], i)
      invariant forall r: nat :: i < r < j ==> !Bit(mat[r], i)
    {
      if Bit(mat[j], i) {
        AddKeeps(inv[..], mat[..], m0, i, j, rows);
        ghost var v, m := inv[..], mat[..];
        BitXor(mat[j], mat[i], i);
        mat[j] := Xor(mat[j], mat[i]);
        inv[j] := Xor(inv[j], inv[i]);
        assert mat[..] == AddRow(m, j, i) && inv[..] == AddRow(v, j, i);
      }
      j := j + 1;
    }
    UpperNext(mat[..], i, rows);
  }

  lemma UpperNext(m: seq<nat>, i: nat, n: nat)
    requires Upper(m, i, n) && i < n && Bit(m[i], i)
    requires forall r: nat :: i < r < n ==> !Bit(m[r], i)
    ensures Upper(m, i + 1, n)
  {}

  /** The second half: mat is only read, since its update is commented out. */
  method BackSubstitute(mat: array<nat>, inv: array<nat>, rows: nat, ghost m0: seq<nat>)
    requires rows <= mat.Length && rows <= inv.Length && mat != inv
    requires Tracks(inv[..], mat[..], m0, rows) && Upper(mat[..], rows, rows) && Bounded(inv[..], rows)
    modifies inv
    ensures IsInverse(inv[..], m0, rows) && Bounded(inv[..], rows)
  {
    ghost var u := mat[..];
    var i := rows - 1;
    while i >= 0
      invariant -1 <= i < rows
      invariant Cleared(inv[..], u, m0, i, rows) && Bounded(inv[..], rows)
    {
      var j := 0;
      while j < i
        invariant 0 <= j <= i
        invariant ClearedTo(inv[..], u, m0, i, j, rows) && Bounded(inv[..], rows)
      {
        ClearStep(inv[..], u, m0, i, j, rows);
        if Bit(mat[j], i) {
          ghost var v := inv[..];
          XorBound(inv[j], inv[i], rows);
          inv[j] := Xor(inv[j], inv[i]);
          assert inv[..] == AddRow(v, j, i);
        }
        j := j + 1;
      }
      ColumnCleared(inv[..], u, m0, i, rows);
      i := i - 1;
    }
  }

  lemma ColumnCleared(v: seq<nat>, u: seq<nat>, m0: seq<nat>, i: nat, n: nat)
    requires Upper(u, n, n) && i < n && ClearedTo(v, u, m0, i, i, n)
    ensures Cleared(v, u, m0, i - 1, n)
  {}

  /** Replaces inv by the inverse of mat, and destroys mat; false is the call of exit(1). */
  method InvertBinaryMatrix(mat: array<nat>, inv: array<nat>, rows: nat) returns (ok: bool)
    requires rows <= mat.Length && rows <= inv.Length && mat != inv
    modifies mat, inv
    ensures ok <==> !Singular(old(mat[..]), rows)
    ensures ok ==> IsInverse(inv[..], old(mat[..]), rows) && Bounded(inv[..], rows)
  {
    ghost var m0 := mat[..];
    for i := 0 to rows
      invariant mat[..] == m0
      invariant forall r :: 0 <= r < i ==> inv[r] == Pow2(r)
    {
      inv[i] := Pow2(i);
    }
    forall r: nat | r < rows
      ensures Combine(inv[r], m0, rows) == m0[r] && inv[r] < Pow2(rows)
    {
      CombinePow2(r, m0, rows);
      Pow2Increasing(r, rows);
    }
    for i := 0 to rows
      invariant Reduced(inv[..], mat[..], m0, i, rows)
    {
      ok := PivotColumn(mat, inv, i, rows, m0);
      if !ok { return; }
    }
    BackSubstitute(mat, inv, rows, m0);
    InverseIsRegular(inv[..], m0, rows);
    ok := true;
  }
}
