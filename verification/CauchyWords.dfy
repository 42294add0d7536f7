/** Which words make cauchy_xy_coding_matrix return a code. */
module CauchyWords {
  import opened Words
  import opened Counting
  import opened GaloisField
  import opened Vectors
  import opened Matrices
  import opened Cauchy
  import opened CauchyCoding

  /** The error value marks exactly the words that x and y share; the rest are Cauchy entries. */
  lemma {:induction false} XYEntries(f: Field, x: seq<nat>, y: seq<nat>, i: nat, j: nat)
    requires IsField(f) && Vector(f, x, |x|) && Vector(f, y, |y|) && i < |x| && j < |y|
    ensures XYRows(f, x, y)[i][j] == -1 <==> x[i] == y[j]
    ensures x[i] != y[j] ==> XYRows(f, x, y)[i][j] >= 0 && Mul(f, XYRows(f, x, y)[i][j], Xor(x[i], y[j])) == 1
    ensures Apart(f, x, y) ==> XYRows(f, x, y)[i][j] == CauchyRows(f, x, y)[i][j]
  {
    XorZeroIsEqual(x[i], y[j]);
  }

  /** The entries are words, and under the identity they recover the data from any k devices. */
  ghost predicate IsCode(f: Field, a: seq<seq<int>>, m: nat, k: nat)
    requires f.Valid()
  {
    exists b: seq<seq<nat>> :: b == a && Matrix(f, b, m, k) && MDS(f, Generator(b, k), k + m, k)
  }

  /** No word occurs in both lists; with two data devices none repeats in x, with two coding devices none in y. */
  ghost predicate Usable(x: seq<nat>, y: seq<nat>) {
    (forall i, j :: 0 <= i < |x| && 0 <= j < |y| ==> x[i] != y[j]) &&
    (|y| >= 2 ==> Distinct(x)) && (|x| >= 2 ==> Distinct(y))
  }

  // ---------- suitable words give a code ----------

  /** The rows when no word is shared: every entry is the inverse of a sum. */
  lemma PlainRows(f: Field, x: seq<nat>, y: seq<nat>) returns (b: seq<seq<nat>>)
    requires IsField(f) && Vector(f, x, |x|) && Vector(f, y, |y|)
    requires forall i, j :: 0 <= i < |x| && 0 <= j < |y| ==> x[i] != y[j]
    ensures b == XYRows(f, x, y) && IsCauchy(f, b, x, y)
    ensures forall i, j :: 0 <= i < |x| && 0 <= j < |y| ==> b[i][j] != 0
  {
    hide Xor, Mul;
    var a := XYRows(f, x, y);
    b := seq(|x|, i requires 0 <= i < |x| => seq(|y|, j requires 0 <= j < |y| => if a[i][j] < 0 then 0 else a[i][j]));
    forall i, j | 0 <= i < |x| && 0 <= j < |y|
      ensures b[i][j] == a[i][j] && f.Has(b[i][j]) && b[i][j] != 0
      ensures Mul(f, b[i][j], Xor(x[i], y[j])) == 1
    {
      XYEntries(f, x, y, i, j);
      MulZero(f, Xor(x[i], y[j]));
    }
    forall i | 0 <= i < |x|
      ensures b[i] == a[i]
    {}
  }

  /** Among k + m devices, m <= 1, k chosen ones miss at most one. */
  lemma MissedOne(devices: seq<nat>, k: nat, m: nat, p: nat, q: nat)
    requires Selection(devices, k, k + m) && m <= 1 && p < k && q < k + m && p !in devices && q !in devices
    ensures p == q && m == 1
  {
    var s, all := Elements(devices), Below(k + m);
    DistinctElements(devices);
    forall d | d in s
      ensures d in all - {p, q}
    {}
    SubsetSmaller(s, all - {p, q});
  }

  /** At most one coding device, without a zero entry. */
  lemma OneRowMDS(f: Field, b: seq<seq<nat>>, m: nat, k: nat)
    requires IsField(f) && Matrix(f, b, m, k) && m <= 1 && forall i, j :: 0 <= i < m && 0 <= j < k ==> b[i][j] != 0
    ensures MDS(f, Generator(b, k), k + m, k)
  {
    hide Xor, Mul, Dot;
    var g := Generator(b, k);
    forall devices, v | Selection(devices, k, k + m) && Vector(f, v, k) && Kills(f, g, devices, v)
      ensures Zero(v)
    {
      forall p: nat | p < k
        ensures v[p] == 0
      {
        if p in devices {
          KilledData(f, b, k, devices, v, p);
        } else {
          forall j: nat | j < k && j != p
            ensures v[j] == 0
          {
            if j !in devices { MissedOne(devices, k, m, p, j); }
            KilledData(f, b, k, devices, v, j);
          }
          if k !in devices { MissedOne(devices, k, m, p, if m == 1 then k else p); }
          var t :| 0 <= t < k && devices[t] == k;
          assert g[k] == b[0] && Dot(f, g[devices[t]], v) == 0;
          DotOfTwo(f, b[0], v, p, p);
        }
      }
    }
  }

  lemma KilledData(f: Field, b: seq<seq<nat>>, k: nat, devices: seq<nat>, v: seq<nat>, j: nat)
    requires f.Valid() && Vector(f, v, k) && Kills(f, Generator(b, k), devices, v) && j < k && j in devices
    ensures v[j] == 0
  {
    hide Dot;
    var t :| 0 <= t < |devices| && devices[t] == j;
    DotUnit(f, v, j, k);
    assert Dot(f, Generator(b, k)[devices[t]], v) == 0;
  }

  /** At most one data device: every device holds a nonzero multiple of it. */
  lemma OneColumnMDS(f: Field, b: seq<seq<nat>>, m: nat, k: nat)
    requires IsField(f) && Matrix(f, b, m, k) && k <= 1 && forall i, j :: 0 <= i < m && 0 <= j < k ==> b[i][j] != 0
    ensures MDS(f, Generator(b, k), k + m, k)
  {
    hide Xor, Mul, Dot;
    var g := Generator(b, k);
    forall devices, v | Selection(devices, k, k + m) && Vector(f, v, k) && Kills(f, g, devices, v)
      ensures Zero(v)
    {
      if k == 1 {
        var d := devices[0];
        assert Dot(f, g[d], v) == 0;
        if d < k {
          KilledData(f, b, k, devices, v, d);
        } else {
          assert g[d] == b[d - k];
          DotOfTwo(f, b[d - k], v, 0, 0);
        }
      }
    }
  }

  lemma UsableIsCode(f: Field, x: seq<nat>, y: seq<nat>)
    requires IsField(f) && Vector(f, x, |x|) && Vector(f, y, |y|) && Usable(x, y)
    ensures IsCode(f, XYRows(f, x, y), |x|, |y|)
  {
    hide MDS, IsField, XYRows;
    var b := PlainRows(f, x, y);
    if |x| <= 1 {
      OneRowMDS(f, b, |x|, |y|);
    } else if |y| <= 1 {
      OneColumnMDS(f, b, |x|, |y|);
    } else {
      CauchyMDS(f, b, x, y);
    }
  }

  // ---------- other words lose data ----------

  /** Data on two devices that two coding devices do not see: losing all but those two loses it. */
  lemma {:induction false} TwoUnseen(f: Field, b: seq<seq<nat>>, m: nat, k: nat, v: seq<nat>, p: nat, q: nat, i: nat, j: nat)
    requires f.Valid() && Matrix(f, b, m, k) && Vector(f, v, k) && p < q < k && i < j < m
    requires v[p] != 0 && forall l :: 0 <= l < k && l != p && l != q ==> v[l] == 0
    requires Dot(f, b[i], v) == 0 && Dot(f, b[j], v) == 0
    ensures !MDS(f, Generator(b, k), k + m, k)
  {
    hide Dot;
    var g := Generator(b, k);
    var devices: seq<nat> := seq(k, t => if t == p then k + i else if t == q then k + j else t);
    forall t: nat | t < k && t != p && t != q
      ensures Dot(f, g[t], v) == 0
    {
      DotUnit(f, v, t, k);
    }
    assert g[k + i] == b[i] && g[k + j] == b[j];
    assert Selection(devices, k, k + m) && Kills(f, g, devices, v) && !Zero(v);
  }

  /** A word repeated in x: two equal coding devices. */
  lemma RepeatedInX(f: Field, x: seq<nat>, y: seq<nat>, b: seq<seq<nat>>, i: nat, j: nat)
    requires IsField(f) && Vector(f, x, |x|) && Vector(f, y, |y|) && b == XYRows(f, x, y) && Matrix(f, b, |x|, |y|)
    requires i < j < |x| && x[i] == x[j] && |y| >= 2
    ensures !MDS(f, Generator(b, |y|), |y| + |x|, |y|)
  {
    hide Xor, Mul, Dot, MDS;
    var row, k := b[i], |y|;
    assert b[j] == row;
    XYEntries(f, x, y, i, 1);
    MulZero(f, Xor(x[i], y[1]));
    var v: seq<nat> := seq(k, l => if l == 0 then row[1] else if l == 1 then row[0] else 0);
    assert Vector(f, v, k) && Vector(f, row, k);
    DotOfTwo(f, row, v, 0, 1);
    MulComm(f, row[0], row[1]);
    XorZero(Mul(f, row[0], row[1]));
    TwoUnseen(f, b, |x|, k, v, 0, 1, i, j);
  }

  /** A word repeated in y: two data devices that every coding device adds up with the same factor. */
  lemma RepeatedInY(f: Field, x: seq<nat>, y: seq<nat>, b: seq<seq<nat>>, p: nat, q: nat)
    requires IsField(f) && Vector(f, x, |x|) && Vector(f, y, |y|) && b == XYRows(f, x, y) && Matrix(f, b, |x|, |y|)
    requires p < q < |y| && y[p] == y[q] && |x| >= 2
    ensures !MDS(f, Generator(b, |y|), |y| + |x|, |y|)
  {
    hide Xor, Mul, Dot, MDS;
    var k := |y|;
    var v: seq<nat> := seq(k, l => if l == p || l == q then 1 else 0);
    UnitVector(f, p, k);
    assert f.Has(Unit(p, k)[p]) && Vector(f, v, k);
    forall i: nat | i < 2
      ensures Dot(f, b[i], v) == 0
    {
      assert b[i][p] == b[i][q];
      DotOfTwo(f, b[i], v, p, q);
      XorZero(Mul(f, b[i][p], 1));
    }
    TwoUnseen(f, b, |x|, k, v, p, q, 0, 1);
  }

  lemma CodeIsUsable(f: Field, x: seq<nat>, y: seq<nat>)
    requires IsField(f) && Vector(f, x, |x|) && Vector(f, y, |y|) && IsCode(f, XYRows(f, x, y), |x|, |y|)
    ensures Usable(x, y)
  {
    hide MDS, XYRows, Xor, Mul;
    var b: seq<seq<nat>> :| b == XYRows(f, x, y) && Matrix(f, b, |x|, |y|) && MDS(f, Generator(b, |y|), |y| + |x|, |y|);
    forall i, j | 0 <= i < |x| && 0 <= j < |y|
      ensures x[i] != y[j]
    {
      assert b[i][j] >= 0;
      XYEntries(f, x, y, i, j);
    }
    forall i, j | 0 <= i < j < |x| && |y| >= 2
      ensures x[i] != x[j]
    {
      if x[i] == x[j] { RepeatedInX(f, x, y, b, i, j); }
    }
    forall p, q | 0 <= p < q < |y| && |x| >= 2
      ensures y[p] != y[q]
    {
      if y[p] == y[q] { RepeatedInY(f, x, y, b, p, q); }
    }
  }

  /** cauchy_xy_coding_matrix returns a code exactly for usable words; with two data and two coding devices
      or more these are the lists without a shared or repeated word. */
  lemma XYIsCodeIff(f: Field, x: seq<nat>, y: seq<nat>)
    requires IsField(f) && Vector(f, x, |x|) && Vector(f, y, |y|)
    ensures IsCode(f, XYRows(f, x, y), |x|, |y|) <==> Usable(x, y)
    ensures |x| >= 2 && |y| >= 2 ==> (IsCode(f, XYRows(f, x, y), |x|, |y|) <==> Apart(f, x, y))
  {
    hide IsCode, XYRows;
    if Usable(x, y) { UsableIsCode(f, x, y); }
    if IsCode(f, XYRows(f, x, y), |x|, |y|) { CodeIsUsable(f, x, y); }
  }
}
