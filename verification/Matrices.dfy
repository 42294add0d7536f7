/** Generator matrices over GF(2^w): one row per device, one column per data device. */
module Matrices {
  import opened Words
  import opened Counting
  import opened GaloisField
  import opened Vectors

  ghost predicate Matrix(f: Field, m: seq<seq<nat>>, rows: nat, cols: nat) {
    |m| == rows && forall r :: 0 <= r < rows ==> Vector(f, m[r], cols)
  }

  /** A choice of k different devices. */
  ghost predicate Selection(devices: seq<nat>, k: nat, rows: nat) {
    |devices| == k && Distinct(devices) && forall t :: 0 <= t < k ==> devices[t] < rows
  }

  /** The devices in the list store 0 for the data v. */
  ghost predicate Kills(f: Field, m: seq<seq<nat>>, devices: seq<nat>, v: seq<nat>)
    requires f.Valid()
  {
    forall t :: 0 <= t < |devices| ==>
      devices[t] < |m| && |m[devices[t]]| == |v| && Dot(f, m[devices[t]], v) == 0
  }

  /** Maximum distance separable: any cols rows have a trivial kernel. */
  ghost predicate MDS(f: Field, m: seq<seq<nat>>, rows: nat, cols: nat)
    requires f.Valid()
  {
    forall devices, v :: Selection(devices, cols, rows) && Vector(f, v, cols) && Kills(f, m, devices, v) ==> Zero(v)
  }

  /** What MDS is for: the contents of any cols devices determine the data. */
  lemma {:induction false} DevicesDetermineData(f: Field, m: seq<seq<nat>>, rows: nat, cols: nat,
      devices: seq<nat>, u: seq<nat>, v: seq<nat>)
    requires f.Valid() && Matrix(f, m, rows, cols) && MDS(f, m, rows, cols) && Selection(devices, cols, rows)
    requires Vector(f, u, cols) && Vector(f, v, cols)
    requires forall t :: 0 <= t < cols ==> Dot(f, m[devices[t]], u) == Dot(f, m[devices[t]], v)
    ensures u == v
  {
    var d := Sum(u, v);
    assert Vector(f, d, cols) by {
      forall i | 0 <= i < cols
        ensures f.Has(d[i])
      {
        XorBound(u[i], v[i], f.w);
      }
    }
    assert Kills(f, m, devices, d) by {
      forall t | 0 <= t < cols
        ensures Dot(f, m[devices[t]], d) == 0
      {
        DotXor(f, m[devices[t]], u, v);
        XorZero(Dot(f, m[devices[t]], u));
      }
    }
    assert Zero(d);
    forall i | 0 <= i < cols
      ensures u[i] == v[i]
    {
      assert d[i] == 0;
      XorZeroIsEqual(u[i], v[i]);
    }
  }

  // ---------- row and column operations ----------

  /** Column i times t, in the rows from `from` on. */
  function ScaleColumn(f: Field, m: seq<seq<nat>>, from: nat, i: nat, t: nat): (r: seq<seq<nat>>)
    requires f.Valid() && forall k :: 0 <= k < |m| ==> i < |m[k]|
    ensures |r| == |m|
  {
    seq(|m|, k requires 0 <= k < |m| => if k < from then m[k] else m[k][i := Mul(f, t, m[k][i])])
  }

  /** Column j plus e times column i. */
  function AddColumn(f: Field, m: seq<seq<nat>>, i: nat, j: nat, e: nat): (r: seq<seq<nat>>)
    requires f.Valid() && forall k :: 0 <= k < |m| ==> i < |m[k]| && j < |m[k]|
    ensures |r| == |m|
  {
    seq(|m|, k requires 0 <= k < |m| => m[k][j := Xor(m[k][j], Mul(f, e, m[k][i]))])
  }

  /** Row i times t. */
  function ScaleRow(f: Field, m: seq<seq<nat>>, i: nat, t: nat): (r: seq<seq<nat>>)
    requires f.Valid() && i < |m|
    ensures |r| == |m|
  {
    m[i := Scale(f, m[i], t)]
  }

  function SwapRows(m: seq<seq<nat>>, i: nat, j: nat): (r: seq<seq<nat>>)
    requires i < |m| && j < |m|
    ensures |r| == |m|
  {
    m[i := m[j]][j := m[i]]
  }

  /** Row r of the matrix is the unit row r. */
  ghost predicate UnitRow(m: seq<seq<nat>>, r: nat, cols: nat) {
    r < |m| && m[r] == Unit(r, cols)
  }

  ghost predicate UnitRows(m: seq<seq<nat>>, n: nat, cols: nat) {
    forall r: nat :: r < n ==> UnitRow(m, r, cols)
  }

  /** The first t + 1 rows restricted to the first t + 1 columns have a trivial kernel. */
  ghost predicate Leading(f: Field, m: seq<seq<nat>>, t: nat, cols: nat)
    requires f.Valid()
  {
    forall v :: Vector(f, v, cols) && (forall l :: t < l < cols ==> v[l] == 0) && Kills(f, m, FirstRows(t + 1), v) ==>
      Zero(v)
  }

  function FirstRows(n: nat): (s: seq<nat>)
    ensures |s| == n && forall i :: 0 <= i < n ==> s[i] == i
  {
    seq(n, i => i)
  }

  // ---------- how a column operation acts on data ----------

  /** Entry i of the data times t. */
  function ScaleEntry(f: Field, v: seq<nat>, i: nat, t: nat): (r: seq<nat>)
    requires f.Valid() && i < |v|
  {
    v[i := Mul(f, t, v[i])]
  }

  /** Entry i of the data plus e times entry j. */
  function AddEntry(f: Field, v: seq<nat>, i: nat, j: nat, e: nat): (r: seq<nat>)
    requires f.Valid() && i < |v| && j < |v|
  {
    v[i := Xor(v[i], Mul(f, e, v[j]))]
  }

  lemma {:induction false} ScaleRowOfColumn(f: Field, a: seq<nat>, v: seq<nat>, i: nat, t: nat)
    requires f.Valid() && Vector(f, a, |v|) && Vector(f, v, |v|) && i < |v| && f.Has(t)
    ensures Vector(f, ScaleEntry(f, a, i, t), |v|) && Vector(f, ScaleEntry(f, v, i, t), |v|)
    ensures Dot(f, ScaleEntry(f, a, i, t), v) == Dot(f, a, ScaleEntry(f, v, i, t))
  {
    hide Xor, Mul, Dot;
    var a', v' := ScaleEntry(f, a, i, t), ScaleEntry(f, v, i, t);
    MulHas(f, t, a[i]);
    MulHas(f, t, v[i]);
    var x, y := Xor(a[i], Mul(f, t, a[i])), Xor(v[i], Mul(f, t, v[i]));
    XorBound(a[i], Mul(f, t, a[i]), f.w);
    XorBound(v[i], Mul(f, t, v[i]), f.w);
    XorCancel(a[i], Mul(f, t, a[i]));
    XorCancel(v[i], Mul(f, t, v[i]));
    DotUpdate(f, a, v, i, y);
    DotUpdate(f, v, a, i, x);
    DotComm(f, a', v);
    DotComm(f, a, v);
    // a_i (v_i + t v_i) = v_i (a_i + t a_i)
    MulXorRight(f, a[i], v[i], Mul(f, t, v[i]));
    MulXorRight(f, v[i], a[i], Mul(f, t, a[i]));
    MulComm(f, a[i], v[i]);
    MulExchange(f, a[i], t, v[i]);
    MulExchange(f, v[i], t, a[i]);
  }

  lemma {:induction false} AddRowOfColumn(f: Field, a: seq<nat>, v: seq<nat>, i: nat, j: nat, e: nat)
    requires f.Valid() && Vector(f, a, |v|) && Vector(f, v, |v|) && i < |v| && j < |v| && i != j && f.Has(e)
    ensures Vector(f, AddEntry(f, a, j, i, e), |v|) && Vector(f, AddEntry(f, v, i, j, e), |v|)
    ensures Dot(f, AddEntry(f, a, j, i, e), v) == Dot(f, a, AddEntry(f, v, i, j, e))
  {
    hide Xor, Mul, Dot;
    var x, y := Mul(f, e, a[i]), Mul(f, e, v[j]);
    MulHas(f, e, a[i]);
    MulHas(f, e, v[j]);
    XorBound(a[j], x, f.w);
    XorBound(v[i], y, f.w);
    DotUpdate(f, a, v, i, y);
    DotUpdate(f, v, a, j, x);
    DotComm(f, AddEntry(f, a, j, i, e), v);
    DotComm(f, a, v);
    // a_i (e v_j) = v_j (e a_i)
    MulExchange(f, a[i], e, v[j]);
    MulExchange(f, v[j], e, a[i]);
    MulComm(f, a[i], v[j]);
  }

  lemma ScaleEntryZero(f: Field, v: seq<nat>, i: nat, t: nat)
    requires IsField(f) && Vector(f, v, |v|) && i < |v| && f.Has(t) && t != 0
    requires Zero(ScaleEntry(f, v, i, t))
    ensures Zero(v)
  {
    var v' := ScaleEntry(f, v, i, t);
    assert v'[i] == 0;
    assert forall k :: 0 <= k < |v| && k != i ==> v[k] == v'[k];
  }

  lemma AddEntryZero(f: Field, v: seq<nat>, i: nat, j: nat, e: nat)
    requires f.Valid() && i < |v| && j < |v| && i != j
    requires Zero(AddEntry(f, v, i, j, e))
    ensures Zero(v)
  {
    var v' := AddEntry(f, v, i, j, e);
    assert v'[j] == 0 && v'[i] == 0;
    MulZero(f, e);
    XorZero(v[i]);
    assert forall k :: 0 <= k < |v| && k != i ==> v[k] == v'[k];
  }

  // ---------- MDS survives ----------

  /** Scaling a column, in all rows or only below unit rows, keeps MDS. */
  lemma ScaleColumnMDS(f: Field, m: seq<seq<nat>>, rows: nat, cols: nat, from: nat, i: nat, t: nat)
    requires IsField(f) && Matrix(f, m, rows, cols) && MDS(f, m, rows, cols)
    requires i < cols && from <= cols && f.Has(t) && t != 0 && UnitRows(m, from, cols)
    ensures Matrix(f, ScaleColumn(f, m, from, i, t), rows, cols)
    ensures MDS(f, ScaleColumn(f, m, from, i, t), rows, cols)
  {
    hide Xor, Mul, Dot;
    var m' := ScaleColumn(f, m, from, i, t);
    forall r | 0 <= r < rows
      ensures Vector(f, m'[r], cols)
    {
      MulHas(f, t, m[r][i]);
    }
    forall devices, v | Selection(devices, cols, rows) && Vector(f, v, cols) && Kills(f, m', devices, v)
      ensures Zero(v)
    {
      var v' := ScaleEntry(f, v, i, t);
      MulHas(f, t, v[i]);
      assert Vector(f, v', cols);
      forall s | 0 <= s < cols
        ensures Dot(f, m[devices[s]], v') == 0
      {
        var r := devices[s];
        assert Dot(f, m'[r], v) == 0;
        ScaleRowOfColumn(f, m[r], v, i, t);
        if r < from {
          assert UnitRow(m, r, cols);
          DotUnit(f, v, r, cols);
          DotUnit(f, v', r, cols);
          MulZero(f, t);
        } else {
          assert m'[r] == ScaleEntry(f, m[r], i, t);
        }
      }
      assert Kills(f, m, devices, v');
      ScaleEntryZero(f, v, i, t);
    }
  }

  lemma AddColumnMDS(f: Field, m: seq<seq<nat>>, rows: nat, cols: nat, i: nat, j: nat, e: nat)
    requires IsField(f) && Matrix(f, m, rows, cols) && MDS(f, m, rows, cols)
    requires i < cols && j < cols && i != j && f.Has(e)
    ensures Matrix(f, AddColumn(f, m, i, j, e), rows, cols)
    ensures MDS(f, AddColumn(f, m, i, j, e), rows, cols)
  {
    hide Xor, Mul, Dot;
    var m' := AddColumn(f, m, i, j, e);
    forall r | 0 <= r < rows
      ensures Vector(f, m'[r], cols)
    {
      MulHas(f, e, m[r][i]);
      XorBound(m[r][j], Mul(f, e, m[r][i]), f.w);
    }
    forall devices, v | Selection(devices, cols, rows) && Vector(f, v, cols) && Kills(f, m', devices, v)
      ensures Zero(v)
    {
      var v' := AddEntry(f, v, i, j, e);
      MulHas(f, e, v[j]);
      XorBound(v[i], Mul(f, e, v[j]), f.w);
      assert Vector(f, v', cols);
      forall s | 0 <= s < cols
        ensures Dot(f, m[devices[s]], v') == 0
      {
        assert Dot(f, m'[devices[s]], v) == 0;
        AddRowOfColumn(f, m[devices[s]], v, i, j, e);
      }
      assert Kills(f, m, devices, v');
      AddEntryZero(f, v, i, j, e);
    }
  }

  lemma ScaleRowMDS(f: Field, m: seq<seq<nat>>, rows: nat, cols: nat, i: nat, t: nat)
    requires IsField(f) && Matrix(f, m, rows, cols) && MDS(f, m, rows, cols)
    requires i < rows && f.Has(t) && t != 0
    ensures Matrix(f, ScaleRow(f, m, i, t), rows, cols)
    ensures MDS(f, ScaleRow(f, m, i, t), rows, cols)
  {
    hide Xor, Mul, Dot;
    var m' := ScaleRow(f, m, i, t);
    forall k | 0 <= k < cols
      ensures f.Has(m'[i][k])
    {
      MulHas(f, t, m[i][k]);
    }
    forall devices, v | Selection(devices, cols, rows) && Vector(f, v, cols) && Kills(f, m', devices, v)
      ensures Zero(v)
    {
      forall s | 0 <= s < cols
        ensures Dot(f, m[devices[s]], v) == 0
      {
        assert Dot(f, m'[devices[s]], v) == 0;
        DotScale(f, m[i], v, t);
        DotHas(f, m[i], v);
      }
      assert Kills(f, m, devices, v);
    }
  }

  // ---------- the leading blocks survive ----------

  lemma ScaleColumnLeading(f: Field, m: seq<seq<nat>>, rows: nat, cols: nat, i: nat, t: nat, n: nat)
    requires IsField(f) && Matrix(f, m, rows, cols) && i <= n < cols < rows && f.Has(t) && t != 0
    requires Leading(f, m, n, cols)
    ensures Leading(f, ScaleColumn(f, m, 0, i, t), n, cols)
  {
    hide Xor, Mul, Dot;
    var m', first := ScaleColumn(f, m, 0, i, t), FirstRows(n + 1);
    forall v | Vector(f, v, cols) && (forall l :: n < l < cols ==> v[l] == 0) && Kills(f, m', first, v)
      ensures Zero(v)
    {
      var v' := ScaleEntry(f, v, i, t);
      MulHas(f, t, v[i]);
      assert Vector(f, v', cols);
      forall s | 0 <= s <= n
        ensures Dot(f, m[first[s]], v') == 0
      {
        assert Dot(f, m'[first[s]], v) == 0;
        ScaleRowOfColumn(f, m[s], v, i, t);
      }
      assert Kills(f, m, first, v');
      ScaleEntryZero(f, v, i, t);
    }
  }

  lemma AddColumnLeading(f: Field, m: seq<seq<nat>>, rows: nat, cols: nat, i: nat, j: nat, e: nat, n: nat)
    requires IsField(f) && Matrix(f, m, rows, cols) && i <= n < cols < rows && j < cols && i != j && f.Has(e)
    requires Leading(f, m, n, cols)
    ensures Leading(f, AddColumn(f, m, i, j, e), n, cols)
  {
    hide Xor, Mul, Dot;
    var m', first := AddColumn(f, m, i, j, e), FirstRows(n + 1);
    forall v | Vector(f, v, cols) && (forall l :: n < l < cols ==> v[l] == 0) && Kills(f, m', first, v)
      ensures Zero(v)
    {
      var v' := AddEntry(f, v, i, j, e);
      MulHas(f, e, v[j]);
      XorBound(v[i], Mul(f, e, v[j]), f.w);
      assert Vector(f, v', cols);
      forall s | 0 <= s <= n
        ensures Dot(f, m[first[s]], v') == 0
      {
        assert Dot(f, m'[first[s]], v) == 0;
        AddRowOfColumn(f, m[s], v, i, j, e);
      }
      assert Kills(f, m, first, v');
      AddEntryZero(f, v, i, j, e);
    }
  }

  // ---------- consequences ----------

  /** All unit rows but row c, together with row r: what a zero in row r column c would leave undetermined. */
  lemma ZeroEntryHidesColumn(f: Field, m: seq<seq<nat>>, rows: nat, cols: nat, r: nat, c: nat)
    requires f.Valid() && Matrix(f, m, rows, cols) && UnitRows(m, cols, cols)
    requires cols <= r < rows && c < cols && m[r][c] == 0
    ensures Selection(FirstRows(cols)[c := r], cols, rows)
    ensures Vector(f, Unit(c, cols), cols) && !Zero(Unit(c, cols))
    ensures Kills(f, m, FirstRows(cols)[c := r], Unit(c, cols))
  {
    hide Xor, Mul, Dot;
    var devices, v := FirstRows(cols)[c := r], Unit(c, cols);
    UnitVector(f, c, cols);
    assert v[c] == 1;
    forall t | 0 <= t < cols
      ensures devices[t] < rows && Dot(f, m[devices[t]], v) == 0
    {
      if t != c { assert UnitRow(m, t, cols); }
      DotUnit(f, m[devices[t]], c, cols);
    }
  }

  /** Below unit rows, an MDS matrix has no zero entry. */
  lemma NoZeroEntry(f: Field, m: seq<seq<nat>>, rows: nat, cols: nat, r: nat, c: nat)
    requires IsField(f) && Matrix(f, m, rows, cols) && MDS(f, m, rows, cols) && UnitRows(m, cols, cols)
    requires cols <= r < rows && c < cols
    ensures m[r][c] != 0
  {
    if m[r][c] == 0 { ZeroEntryHidesColumn(f, m, rows, cols, r, c); }
  }
}
