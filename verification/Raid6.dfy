/** The RAID-6 coding matrix and the region encoder of reed_sol.c. */
module Raid6 {
  import opened Words
  import opened Indexing
  import opened GaloisField
  import opened PrimitiveElement
  import opened Vectors
  import opened Distribution
  import opened Lanes
  import opened PackedDouble
  import ReedSol

  // ---------- the coding matrix ----------

  /** All ones above the powers of 2. */
  function R6Rows(f: Field, k: nat): (m: seq<seq<nat>>)
    requires f.Valid()
    ensures |m| == 2 && |m[0]| == k && |m[1]| == k
  {
    [seq(k, _ => 1), PowerRow(f, 1, 2, k)]
  }

  lemma R6Vectors(f: Field, k: nat)
    requires f.Valid() && f.w >= 2
    ensures f.Has(2) && Vector(f, R6Rows(f, k)[0], k) && Vector(f, R6Rows(f, k)[1], k)
  {
    assert Pow2(f.w) == 4 * Pow2(f.w - 2);
    PowerRowHas(f, 1, 2, k);
  }

  /** reed_sol_r6_coding_matrix; null unless w is 8, 16 or 32. */
  method R6CodingMatrix(f: Field, k: nat) returns (matrix: array?<nat>)
    requires f.Valid() && k > 0
    ensures matrix == null <==> f.w != 8 && f.w != 16 && f.w != 32
    ensures matrix != null ==> fresh(matrix) && Flat(matrix[..], R6Rows(f, k), 2, k)
    ensures matrix != null ==> matrix.Length == 2 * k && forall j :: 0 <= j < k ==> matrix[j] == 1
    ensures matrix != null ==> forall j: nat :: j < k ==> matrix[k + j] == Power(f, j)
  {
    hide Mul, Power;
    if f.w != 8 && f.w != 16 && f.w != 32 { return null; }
    matrix := new nat[2 * k];
    for i := 0 to k
      invariant forall j :: 0 <= j < i ==> matrix[j] == 1
    {
      matrix[i] := 1;
    }
    matrix[k] := 1;
    var tmp := 1;
    for i := 1 to k
      invariant tmp == ReedSol.PowerAt(f, 1, 2, i - 1)
      invariant forall j :: 0 <= j < k ==> matrix[j] == 1
      invariant forall j: nat :: j < i ==> matrix[k + j] == ReedSol.PowerAt(f, 1, 2, j)
    {
      tmp := Mul(f, tmp, 2);
      matrix[k + i] := tmp;
    }
    forall j: nat | j < k
      ensures At(0, j, k) == j && At(1, j, k) == k + j && matrix[k + j] == R6Rows(f, k)[1][j] == Power(f, j)
    {
      ReedSol.PowerRowAt(f, 1, 2, k, j);
      PowerAtIsPower(f, j);
    }
  }

  // ---------- two lost devices ----------

  /** The powers 1, 2, 4, ..., one for each data device, are different. */
  ghost predicate PowersDiffer(f: Field, k: nat)
    requires f.Valid()
  {
    forall a: nat, b: nat :: a < b < k ==> R6Rows(f, k)[1][a] != R6Rows(f, k)[1][b]
  }

  /** Device id holds 0 for the data d: a data device, P (id k) or Q (id k + 1). */
  ghost predicate HoldsZero(f: Field, d: seq<nat>, id: nat)
    requires f.Valid()
  {
    if id < |d| then d[id] == 0
    else if id == |d| then Dot(f, R6Rows(f, |d|)[0], d) == 0
    else Dot(f, R6Rows(f, |d|)[1], d) == 0
  }

  /** No two lost devices hide any data. */
  ghost predicate R6Recovers(f: Field, k: nat)
    requires f.Valid()
  {
    forall d, lost1: nat, lost2: nat :: Vector(f, d, k) && ZeroBut(f, d, lost1, lost2) ==> Zero(d)
  }

  ghost predicate ZeroBut(f: Field, d: seq<nat>, lost1: nat, lost2: nat)
    requires f.Valid()
  {
    forall id: nat :: id < |d| + 2 && id != lost1 && id != lost2 ==> HoldsZero(f, d, id)
  }

  /** Two lost data devices: equal in P, and told apart in Q. */
  lemma {:induction false} TwoLostData(f: Field, k: nat, d: seq<nat>, a: nat, b: nat)
    requires IsField(f) && f.w >= 2 && PowersDiffer(f, k) && Vector(f, d, k) && a < b < k
    requires forall i :: 0 <= i < k && i != a && i != b ==> d[i] == 0
    requires Dot(f, R6Rows(f, k)[0], d) == 0 && Dot(f, R6Rows(f, k)[1], d) == 0
    ensures d[a] == 0 && d[b] == 0
  {
    hide Xor, Mul, Dot;
    var ones, q := R6Rows(f, k)[0], R6Rows(f, k)[1];
    R6Vectors(f, k);
    DotOfTwo(f, ones, d, a, b);
    MulOne(f, d[a]);
    MulOne(f, d[b]);
    XorZeroIsEqual(d[a], d[b]);
    DotOfTwo(f, q, d, a, b);
    XorZeroIsEqual(Mul(f, q[a], d[a]), Mul(f, q[b], d[b]));
    assert q[a] != q[b];
    if d[a] != 0 { Cancel(f, q[a], q[b], d[a]); }
  }

  lemma PowersNonzero(f: Field, k: nat, a: nat)
    requires IsField(f) && f.w >= 2 && a < k
    ensures R6Rows(f, k)[1][a] != 0
  {
    ReedSol.PowerRowAt(f, 1, 2, k, a);
    PowerAtNonzero(f, a);
  }

  lemma {:induction false} PowerAtNonzero(f: Field, j: nat)
    requires IsField(f) && f.w >= 2
    ensures f.Has(2) && f.Has(ReedSol.PowerAt(f, 1, 2, j)) && ReedSol.PowerAt(f, 1, 2, j) != 0
  {
    hide Mul;
    assert Pow2(f.w) == 4 * Pow2(f.w - 2);
    if j > 0 {
      PowerAtNonzero(f, j - 1);
      MulHas(f, ReedSol.PowerAt(f, 1, 2, j - 1), 2);
    }
  }

  /** The powers of 2 do not come back to 1 before the k-th. */
  ghost predicate NoShortCycle(f: Field, k: nat)
    requires f.Valid()
  {
    forall n: nat :: 0 < n < k ==> Power(f, n) != 1
  }

  /** Two of the powers are equal exactly if one of them is 1 again. */
  lemma PowersDifferIff(f: Field, k: nat)
    requires IsField(f) && f.w >= 2
    ensures PowersDiffer(f, k) <==> NoShortCycle(f, k)
  {
    hide Mul, R6Rows, Power, IsField;
    forall n: nat | 0 < n < k && PowersDiffer(f, k)
      ensures Power(f, n) != 1
    {
      R6Power(f, k, 0);
      R6Power(f, k, n);
      PowerZero(f);
      assert R6Rows(f, k)[1][0] != R6Rows(f, k)[1][n];
    }
    forall a: nat, b: nat | a < b < k && NoShortCycle(f, k)
      ensures R6Rows(f, k)[1][a] != R6Rows(f, k)[1][b]
    {
      R6Power(f, k, a);
      R6Power(f, k, b);
      var n: nat := b - a;
      if Power(f, a) == Power(f, b) {
        PowersNonzero(f, k, a);
        EqualPowers(f, a, n);
      }
      assert Power(f, n) != 1;
    }
  }

  lemma PowerZero(f: Field)
    requires f.Valid()
    ensures Power(f, 0) == 1
  {}

  lemma EqualPowers(f: Field, a: nat, n: nat)
    requires IsField(f) && Power(f, a) == Power(f, a + n) != 0
    ensures Power(f, n) == 1
  {
    hide Mul, Power;
    PowerHas(f, a);
    PowerHas(f, n);
    PowerMul(f, a, n);
    MulOne(f, Power(f, a));
    OneHas(f);
    MulComm(f, Power(f, n), Power(f, a));
    Cancel(f, Power(f, n), 1, Power(f, a));
  }

  lemma OneHas(f: Field)
    requires f.Valid()
    ensures f.Has(1)
  {
    assert Pow2(f.w) == 2 * Pow2(f.w - 1);
  }

  lemma R6Power(f: Field, k: nat, j: nat)
    requires f.Valid() && f.w >= 2 && j < k
    ensures R6Rows(f, k)[1][j] == Power(f, j)
  {
    ReedSol.PowerRowAt(f, 1, 2, k, j);
    PowerAtIsPower(f, j);
  }

  /** RAID-6 recovers from every loss of two devices exactly if no power of 2 below the k-th is 1. */
  lemma R6RecoversIff(f: Field, k: nat)
    requires IsField(f) && f.w >= 2
    ensures R6Recovers(f, k) <==> forall n: nat :: 0 < n < k ==> Power(f, n) != 1
  {
    hide Xor, Mul, Dot, R6Rows, Power, IsField;
    PowersDifferIff(f, k);
    assert NoShortCycle(f, k) <==> forall n: nat :: 0 < n < k ==> Power(f, n) != 1;
    if PowersDiffer(f, k) {
      forall d, lost1: nat, lost2: nat | Vector(f, d, k) && ZeroBut(f, d, lost1, lost2)
        ensures Zero(d)
      {
        RecoverLost(f, k, d, if lost1 <= lost2 then lost1 else lost2, if lost1 <= lost2 then lost2 else lost1);
      }
    } else {
      var a: nat, b: nat :| a < b < k && R6Rows(f, k)[1][a] == R6Rows(f, k)[1][b];
      EqualPowersHide(f, k, a, b);
    }
  }

  lemma RecoverLost(f: Field, k: nat, d: seq<nat>, a: nat, b: nat)
    requires IsField(f) && f.w >= 2 && PowersDiffer(f, k) && Vector(f, d, k) && a <= b && ZeroBut(f, d, a, b)
    ensures Zero(d)
  {
    hide Xor, Mul, Dot, PowersDiffer, R6Rows;
    forall i: nat | i < k && i != a && i != b
      ensures d[i] == 0
    {
      assert HoldsZero(f, d, i);
    }
    R6Vectors(f, k);
    if a < b < k {
      assert HoldsZero(f, d, k) && HoldsZero(f, d, k + 1);
      TwoLostData(f, k, d, a, b);
    } else if a < k {
      var q := if b == k then k + 1 else k;
      assert HoldsZero(f, d, q);
      var row := R6Rows(f, k)[q - k];
      DotOfTwo(f, row, d, a, a);
      PowersNonzero(f, k, a);
      OnesRow(f, k, a);
    }
  }

  lemma OnesRow(f: Field, k: nat, a: nat)
    requires f.Valid() && a < k
    ensures R6Rows(f, k)[0][a] == 1
  {}

  /** Two data devices with the same power cancel in both P and Q. */
  lemma EqualPowersHide(f: Field, k: nat, a: nat, b: nat)
    requires IsField(f) && f.w >= 2 && a < b < k && R6Rows(f, k)[1][a] == R6Rows(f, k)[1][b]
    ensures !R6Recovers(f, k)
  {
    hide Xor, Mul, Dot;
    var d := seq(k, i => if i == a || i == b then 1 else 0);
    R6Vectors(f, k);
    DotOfTwo(f, R6Rows(f, k)[0], d, a, b);
    DotOfTwo(f, R6Rows(f, k)[1], d, a, b);
    XorZero(Mul(f, 1, 1));
    XorZero(Mul(f, R6Rows(f, k)[1][a], 1));
    assert Vector(f, d, k) && ZeroBut(f, d, a, b) && d[a] == 1;
  }

  /** Where the log tables can be built exactly the k below 2^w are served; the routine takes every k. */
  lemma TablesServeRaid6(f: Field, k: nat)
    requires f.Valid() && Odd(f) && f.w >= 2 && NoCollision(f)
    ensures IsField(f) && (R6Recovers(f, k) <==> k <= Order(f))
  {
    hide Power, R6Recovers, IsField;
    TablesMakeField(f);
    R6RecoversIff(f, k);
    PowerZero(f);
    assert Order(f) >= 1;
    if k <= Order(f) {
      forall n: nat | 0 < n < k
        ensures Power(f, n) != 1
      {
        assert Power(f, 0) != Power(f, n);
      }
    } else {
      PowerCycle(f);
      assert Power(f, Order(f)) == 1;
    }
  }

  /** One data device too many: devices 0 and 2^w - 1 are stored alike, so losing both loses data. */
  lemma R6FirstFailure(f: Field)
    requires f.Valid() && Odd(f) && f.w >= 2 && NoCollision(f)
    ensures R6Rows(f, Order(f) + 1)[1][0] == R6Rows(f, Order(f) + 1)[1][Order(f)]
    ensures R6Recovers(f, Order(f)) && !R6Recovers(f, Order(f) + 1)
  {
    hide Power, R6Recovers, R6Rows;
    TablesServeRaid6(f, Order(f));
    TablesServeRaid6(f, Order(f) + 1);
    R6Power(f, Order(f) + 1, 0);
    R6Power(f, Order(f) + 1, Order(f));
    PowerZero(f);
    PowerCycle(f);
  }

  lemma {:induction false} TwoIsStep(f: Field, y: nat)
    requires f.Valid() && f.w >= 2 && f.Has(y)
    ensures f.Has(2) && Mul(f, y, 2) == Step(f, y) && Mul(f, 2, y) == Step(f, y)
  {
    assert Pow2(f.w) == 4 * Pow2(f.w - 2);
    BitPow2(f.w - 1, 0);
    assert Step(f, 1) == 2;
    MulStep(f, y, 1);
    MulOne(f, y);
    MulComm(f, y, 2);
  }

  lemma {:induction false} PowerAtIsPower(f: Field, j: nat)
    requires f.Valid() && f.w >= 2
    ensures ReedSol.PowerAt(f, 1, 2, j) == Power(f, j)
  {
    hide Mul, Step;
    if j > 0 {
      PowerAtIsPower(f, j - 1);
      PowerHas(f, j - 1);
      TwoIsStep(f, Power(f, j - 1));
    }
  }

  // ---------- the encoder on one word ----------

  /** The sum of the words of all devices. */
  function SumWord(ds: seq<nat>): nat {
    if ds == [] then 0 else if |ds| == 1 then ds[0] else Xor(SumWord(ds[..|ds| - 1]), ds[|ds| - 1])
  }

  /** Horner's rule over the words of all devices, the last device first. */
  function HornerWord(ds: seq<nat>, p: nat, w: nat): nat {
    if ds == [] then 0 else if |ds| == 1 then ds[0] else Xor(DoubleWord(HornerWord(ds[1..], p, w), p, w), ds[0])
  }

  ghost predicate AreWords(ds: seq<nat>) {
    forall j :: 0 <= j < |ds| ==> ds[j] < Pow2(32)
  }

  /** Lane l of each device. */
  function LanesOf(ds: seq<nat>, w: nat, l: nat): (s: seq<nat>)
    ensures |s| == |ds|
  {
    seq(|ds|, j requires 0 <= j < |ds| => Lane(ds[j], w, l))
  }

  lemma {:induction false} SumBound(ds: seq<nat>)
    requires AreWords(ds)
    ensures SumWord(ds) < Pow2(32)
  {
    hide Xor, Pow2;
    if |ds| > 1 {
      SumBound(ds[..|ds| - 1]);
      XorBound(SumWord(ds[..|ds| - 1]), ds[|ds| - 1], 32);
    } else {
      assert 0 < Pow2(32);
    }
  }

  /** Lane by lane, region 0 is the first matrix row times the data. */
  lemma {:induction false} SumWordIsRow(f: Field, ds: seq<nat>, l: nat)
    requires f.Valid() && |ds| > 0
    ensures Lane(SumWord(ds), f.w, l) == Dot(f, R6Rows(f, |ds|)[0], LanesOf(ds, f.w, l))
  {
    hide Xor, Mul, Lane;
    var n := |ds| - 1;
    var row, v := R6Rows(f, |ds|)[0], LanesOf(ds, f.w, l);
    MulOne(f, v[n]);
    if n == 0 {
      assert row[1..] == [] && v[1..] == [];
      XorZero(v[0]);
    } else {
      SumWordIsRow(f, ds[..n], l);
      LaneXor(SumWord(ds[..n]), ds[n], f.w, l);
      OnesSnoc(f, v, n);
      assert LanesOf(ds[..n], f.w, l) == v[..n];
    }
  }

  /** One more entry in a product with ones. */
  lemma {:induction false} OnesSnoc(f: Field, v: seq<nat>, n: nat)
    requires f.Valid() && Vector(f, v, n + 1)
    ensures Dot(f, seq(n + 1, _ => 1), v) == Xor(Dot(f, seq(n, _ => 1), v[..n]), v[n])
  {
    hide Xor, Mul;
    MulOne(f, v[0]);
    if n == 0 {
      assert v[1..] == [] && v[..0] == [];
      XorZero(v[0]);
    } else {
      var a, b := seq(n + 1, _ => 1), seq(n, _ => 1);
      assert a[1..] == b && b[1..] == seq(n - 1, _ => 1) && v[1..][..n - 1] == v[..n][1..];
      OnesSnoc(f, v[1..], n - 1);
      XorAssoc(v[0], Dot(f, b[1..], v[..n][1..]), v[n]);
    }
  }

  /** Lane by lane, region 1 is the data evaluated at 2. */
  lemma {:induction false} HornerWordEvaluates(f: Field, ds: seq<nat>, l: nat)
    requires f.Valid() && IsLane(f.w, l) && |ds| > 0 && AreWords(ds)
    ensures HornerWord(ds, Low(f.poly, f.w), f.w) < Pow2(32)
    ensures Lane(HornerWord(ds, Low(f.poly, f.w), f.w), f.w, l) == Eval(f, LanesOf(ds, f.w, l), 2)
  {
    hide Xor, Mul, Lane, DoubleWord, Low, Pow2;
    var p, v := Low(f.poly, f.w), LanesOf(ds, f.w, l);
    if |ds| == 1 {
      assert v[1..] == [];
      MulZero(f, 2);
      XorZero(v[0]);
    } else {
      var h := HornerWord(ds[1..], p, f.w);
      HornerWordEvaluates(f, ds[1..], l);
      assert LanesOf(ds[1..], f.w, l) == v[1..];
      DoubleWordLane(f, h, l);
      XorBound(DoubleWord(h, p, f.w), ds[0], 32);
      LaneXor(DoubleWord(h, p, f.w), ds[0], f.w, l);
      TwoIsStep(f, Lane(h, f.w, l));
      XorComm(Step(f, Lane(h, f.w, l)), v[0]);
    }
  }

  /** Lane by lane, region 1 is the second matrix row times the data. */
  lemma {:induction false} HornerWordIsRow(f: Field, ds: seq<nat>, l: nat)
    requires f.Valid() && IsLane(f.w, l) && |ds| > 0 && AreWords(ds)
    ensures Lane(HornerWord(ds, Low(f.poly, f.w), f.w), f.w, l) == Dot(f, R6Rows(f, |ds|)[1], LanesOf(ds, f.w, l))
  {
    hide Xor, Mul, Lane, DoubleWord, Low, Eval;
    var v := LanesOf(ds, f.w, l);
    HornerWordEvaluates(f, ds, l);
    assert Pow2(f.w) == 4 * Pow2(f.w - 2);
    LanesVector(f, ds, l);
    PowerRowEvaluates(f, 1, 2, v);
    EvalHas(f, v, 2);
    MulOne(f, Eval(f, v, 2));
  }

  lemma LanesVector(f: Field, ds: seq<nat>, l: nat)
    ensures Vector(f, LanesOf(ds, f.w, l), |ds|)
  {}
}
