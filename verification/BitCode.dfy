/** RAID-6 codes given by bit matrices: device P holds the sum of the data devices, device Q the sum
    of their images under w x w blocks over GF(2). */
module BitCode {

  /** One block, by rows. */
  ghost predicate IsBlock(x: seq<seq<bool>>, w: nat) {
    |x| == w && forall r :: 0 <= r < w ==> |x[r]| == w
  }

  /** The product of a row with a vector of bits. */
  predicate Product(a: seq<bool>, v: seq<bool>)
    requires |a| == |v|
  {
    if a == [] then false else (a[0] && v[0]) != Product(a[1..], v[1..])
  }

  ghost predicate AllClear(v: seq<bool>) {
    forall i :: 0 <= i < |v| ==> !v[i]
  }

  /** The block has a trivial kernel. */
  ghost predicate Invertible(x: seq<seq<bool>>, w: nat)
    requires IsBlock(x, w)
  {
    forall v :: |v| == w && (forall r :: 0 <= r < w ==> !Product(x[r], v)) ==> AllClear(v)
  }

  /** The sum of the two blocks has a trivial kernel. */
  ghost predicate SumInvertible(x: seq<seq<bool>>, y: seq<seq<bool>>, w: nat)
    requires IsBlock(x, w) && IsBlock(y, w)
  {
    forall v :: |v| == w && (forall r :: 0 <= r < w ==> Product(x[r], v) == Product(y[r], v)) ==> AllClear(v)
  }

  /** What the two lost-device theorems ask of the blocks. */
  ghost predicate GoodBlocks(blocks: seq<seq<seq<bool>>>, w: nat) {
    (forall j :: 0 <= j < |blocks| ==> IsBlock(blocks[j], w) && Invertible(blocks[j], w)) &&
    (forall i, j :: 0 <= i < j < |blocks| ==> SumInvertible(blocks[i], blocks[j], w))
  }

  ghost predicate IsData(d: seq<seq<bool>>, k: nat, w: nat) {
    |d| == k && forall j :: 0 <= j < k ==> |d[j]| == w
  }

  /** Bit r of device P. */
  predicate ParityBit(d: seq<seq<bool>>, r: nat)
    requires forall j :: 0 <= j < |d| ==> r < |d[j]|
  {
    if d == [] then false else d[0][r] != ParityBit(d[1..], r)
  }

  ghost predicate Shapes(blocks: seq<seq<seq<bool>>>, d: seq<seq<bool>>, r: nat) {
    |blocks| == |d| && forall j :: 0 <= j < |d| ==> r < |blocks[j]| && |blocks[j][r]| == |d[j]|
  }

  /** Bit r of device Q. */
  predicate CodeBit(blocks: seq<seq<seq<bool>>>, d: seq<seq<bool>>, r: nat)
    requires Shapes(blocks, d, r)
  {
    if d == [] then false else Product(blocks[0][r], d[0]) != CodeBit(blocks[1..], d[1..], r)
  }

  ghost predicate AreBlocks(blocks: seq<seq<seq<bool>>>, k: nat, w: nat) {
    |blocks| == k && forall j :: 0 <= j < k ==> IsBlock(blocks[j], w)
  }

  /** Device id j < k is data device j, k is P, k + 1 is Q. */
  ghost predicate SameDevice(blocks: seq<seq<seq<bool>>>, d: seq<seq<bool>>, e: seq<seq<bool>>, k: nat, w: nat, id: nat)
    requires IsData(d, k, w) && IsData(e, k, w) && AreBlocks(blocks, k, w)
  {
    if id < k then d[id] == e[id]
    else if id == k then forall r: nat :: r < w ==> ParityBit(d, r) == ParityBit(e, r)
    else forall r: nat :: r < w ==> Shapes(blocks, d, r) && Shapes(blocks, e, r) && CodeBit(blocks, d, r) == CodeBit(blocks, e, r)
  }

  // ---------- products ----------

  lemma {:induction false} ProductClear(a: seq<bool>, v: seq<bool>)
    requires |a| == |v| && forall i :: 0 <= i < |a| ==> !(a[i] && v[i])
    ensures !Product(a, v)
  {
    if a != [] { ProductClear(a[1..], v[1..]); }
  }

  /** A row with one set bit reads off one position. */
  lemma {:induction false} ProductOne(a: seq<bool>, v: seq<bool>, p: nat)
    requires |a| == |v| && p < |a| && forall i :: 0 <= i < |a| ==> (a[i] <==> i == p)
    ensures Product(a, v) == v[p]
  {
    if p == 0 { ProductClear(a[1..], v[1..]); } else { ProductOne(a[1..], v[1..], p - 1); }
  }

  /** A row with two set bits adds two positions. */
  lemma {:induction false} ProductTwo(a: seq<bool>, v: seq<bool>, p: nat, q: nat)
    requires |a| == |v| && p < |a| && q < |a| && p != q && forall i :: 0 <= i < |a| ==> (a[i] <==> i == p || i == q)
    ensures Product(a, v) == (v[p] != v[q])
  {
    if p == 0 {
      ProductOne(a[1..], v[1..], q - 1);
    } else if q == 0 {
      ProductOne(a[1..], v[1..], p - 1);
    } else {
      ProductTwo(a[1..], v[1..], p - 1, q - 1);
    }
  }

  function Sum(u: seq<bool>, v: seq<bool>): (s: seq<bool>)
    requires |u| == |v|
    ensures |s| == |u|
  {
    seq(|u|, i requires 0 <= i < |u| => u[i] != v[i])
  }

  lemma {:induction false} ProductSum(a: seq<bool>, u: seq<bool>, v: seq<bool>)
    requires |a| == |u| == |v|
    ensures Product(a, Sum(u, v)) == (Product(a, u) != Product(a, v))
  {
    if a != [] {
      assert Sum(u, v)[1..] == Sum(u[1..], v[1..]);
      ProductSum(a[1..], u[1..], v[1..]);
    }
  }

  // ---------- the difference of two data sets ----------

  function Difference(d: seq<seq<bool>>, e: seq<seq<bool>>): (s: seq<seq<bool>>)
    requires |d| == |e| && forall j :: 0 <= j < |d| ==> |d[j]| == |e[j]|
    ensures |s| == |d| && forall j :: 0 <= j < |d| ==> |s[j]| == |d[j]|
  {
    seq(|d|, j requires 0 <= j < |d| => Sum(d[j], e[j]))
  }

  lemma {:induction false} ParityDifference(d: seq<seq<bool>>, e: seq<seq<bool>>, r: nat)
    requires |d| == |e| && forall j :: 0 <= j < |d| ==> r < |d[j]| == |e[j]|
    ensures ParityBit(Difference(d, e), r) == (ParityBit(d, r) != ParityBit(e, r))
  {
    if d != [] {
      assert Difference(d, e)[1..] == Difference(d[1..], e[1..]);
      ParityDifference(d[1..], e[1..], r);
    }
  }

  lemma {:induction false} CodeDifference(blocks: seq<seq<seq<bool>>>, d: seq<seq<bool>>, e: seq<seq<bool>>, r: nat)
    requires Shapes(blocks, d, r) && Shapes(blocks, e, r)
    ensures Shapes(blocks, Difference(d, e), r)
    ensures CodeBit(blocks, Difference(d, e), r) == (CodeBit(blocks, d, r) != CodeBit(blocks, e, r))
  {
    if d != [] {
      assert Difference(d, e)[1..] == Difference(d[1..], e[1..]);
      CodeDifference(blocks[1..], d[1..], e[1..], r);
      ProductSum(blocks[0][r], d[0], e[0]);
    }
  }

  // ---------- data that is clear outside at most two devices ----------

  lemma {:induction false} ParityOfNone(d: seq<seq<bool>>, r: nat)
    requires forall j :: 0 <= j < |d| ==> r < |d[j]| && AllClear(d[j])
    ensures !ParityBit(d, r)
  {
    if d != [] { ParityOfNone(d[1..], r); }
  }

  lemma {:induction false} ParityOfTwo(d: seq<seq<bool>>, r: nat, a: nat, b: nat)
    requires (forall j :: 0 <= j < |d| ==> r < |d[j]|) && a <= b < |d|
    requires forall j :: 0 <= j < |d| && j != a && j != b ==> AllClear(d[j])
    ensures ParityBit(d, r) == if a == b then d[a][r] else d[a][r] != d[b][r]
  {
    if a > 0 {
      ParityOfTwo(d[1..], r, a - 1, b - 1);
    } else if b > 0 {
      ParityOfTwo(d[1..], r, b - 1, b - 1);
    } else {
      ParityOfNone(d[1..], r);
    }
  }

  lemma {:induction false} CodeOfNone(blocks: seq<seq<seq<bool>>>, d: seq<seq<bool>>, r: nat)
    requires Shapes(blocks, d, r) && forall j :: 0 <= j < |d| ==> AllClear(d[j])
    ensures !CodeBit(blocks, d, r)
  {
    if d != [] {
      CodeOfNone(blocks[1..], d[1..], r);
      ProductClear(blocks[0][r], d[0]);
    }
  }

  lemma {:induction false} CodeOfTwo(blocks: seq<seq<seq<bool>>>, d: seq<seq<bool>>, r: nat, a: nat, b: nat)
    requires Shapes(blocks, d, r) && a <= b < |d|
    requires forall j :: 0 <= j < |d| && j != a && j != b ==> AllClear(d[j])
    ensures CodeBit(blocks, d, r) ==
      if a == b then Product(blocks[a][r], d[a]) else Product(blocks[a][r], d[a]) != Product(blocks[b][r], d[b])
  {
    if a > 0 {
      CodeOfTwo(blocks[1..], d[1..], r, a - 1, b - 1);
      ProductClear(blocks[0][r], d[0]);
    } else if b > 0 {
      CodeOfTwo(blocks[1..], d[1..], r, b - 1, b - 1);
    } else {
      CodeOfNone(blocks[1..], d[1..], r);
    }
  }

  // ---------- two lost devices ----------

  /** With good blocks, whatever two of the k + 2 devices are lost, the others determine the data. */
  lemma SurvivesTwoLosses(blocks: seq<seq<seq<bool>>>, d: seq<seq<bool>>, e: seq<seq<bool>>,
      k: nat, w: nat, lost1: nat, lost2: nat)
    requires GoodBlocks(blocks, w) && AreBlocks(blocks, k, w) && IsData(d, k, w) && IsData(e, k, w)
    requires forall id: nat :: id < k + 2 && id != lost1 && id != lost2 ==> SameDevice(blocks, d, e, k, w, id)
    ensures d == e
  {
    hide Product;
    var f := Difference(d, e);
    forall j: nat | j < k && j != lost1 && j != lost2
      ensures AllClear(f[j])
    {
      assert SameDevice(blocks, d, e, k, w, j);
    }
    var a, b := if lost1 <= lost2 then lost1 else lost2, if lost1 <= lost2 then lost2 else lost1;
    forall r: nat | r < w
      ensures b != k && a != k ==> !ParityBit(f, r)
      ensures b != k + 1 && a != k + 1 ==> Shapes(blocks, f, r) && !CodeBit(blocks, f, r)
    {
      if a != k && b != k {
        assert SameDevice(blocks, d, e, k, w, k);
        ParityDifference(d, e, r);
      }
      if a != k + 1 && b != k + 1 {
        assert SameDevice(blocks, d, e, k, w, k + 1);
        CodeDifference(blocks, d, e, r);
      }
    }
    DifferenceClear(blocks, f, k, w, a, b);
    forall j | 0 <= j < k
      ensures d[j] == e[j]
    {
      assert AllClear(f[j]);
      forall i | 0 <= i < w ensures d[j][i] == e[j][i] { assert !f[j][i]; }
    }
  }

  lemma {:induction false} DifferenceClear(blocks: seq<seq<seq<bool>>>, f: seq<seq<bool>>, k: nat, w: nat, a: nat, b: nat)
    requires GoodBlocks(blocks, w) && AreBlocks(blocks, k, w) && IsData(f, k, w) && a <= b
    requires forall j: nat :: j < k && j != a && j != b ==> AllClear(f[j])
    requires a != k && b != k ==> forall r :: 0 <= r < w ==> !ParityBit(f, r)
    requires a != k + 1 && b != k + 1 ==> forall r: nat :: r < w ==> Shapes(blocks, f, r) && !CodeBit(blocks, f, r)
    ensures forall j :: 0 <= j < k ==> AllClear(f[j])
  {
    hide Product;
    if a < b < k {
      forall r | 0 <= r < w
        ensures f[a][r] == f[b][r] && Product(blocks[a][r], f[a]) == Product(blocks[b][r], f[b])
      {
        ParityOfTwo(f, r, a, b);
        CodeOfTwo(blocks, f, r, a, b);
      }
      assert f[a] == f[b];
      assert SumInvertible(blocks[a], blocks[b], w);
      assert AllClear(f[a]);
    } else if a < k {
      forall r | 0 <= r < w
        ensures b == k ==> !Product(blocks[a][r], f[a])
        ensures b != k ==> !f[a][r]
      {
        ParityOfTwo(f, r, a, a);
        CodeOfTwo(blocks, f, r, a, a);
      }
      assert Invertible(blocks[a], w);
      assert AllClear(f[a]);
    }
  }

  // ---------- what happens without good blocks ----------

  /** Whatever two of the k + 2 devices are lost, the others determine the data. */
  ghost predicate Survives(blocks: seq<seq<seq<bool>>>, k: nat, w: nat)
    requires AreBlocks(blocks, k, w)
  {
    forall d, e, lost1: nat, lost2: nat ::
      IsData(d, k, w) && IsData(e, k, w) && SameBut(blocks, d, e, k, w, lost1, lost2) ==> d == e
  }

  ghost predicate SameBut(blocks: seq<seq<seq<bool>>>, d: seq<seq<bool>>, e: seq<seq<bool>>,
      k: nat, w: nat, lost1: nat, lost2: nat)
    requires IsData(d, k, w) && IsData(e, k, w) && AreBlocks(blocks, k, w)
  {
    forall id: nat :: id < k + 2 && id != lost1 && id != lost2 ==> SameDevice(blocks, d, e, k, w, id)
  }

  /** The data that is v on devices a and b and clear on the others. */
  function OnTwo(v: seq<bool>, a: nat, b: nat, k: nat): (d: seq<seq<bool>>)
    ensures IsData(d, k, |v|)
  {
    seq(k, j => if j == a || j == b then v else seq(|v|, _ => false))
  }

  /** A kernel vector of one block, or of the sum of two, is data that two losses hide. */
  lemma {:induction false} KernelHides(blocks: seq<seq<seq<bool>>>, k: nat, w: nat, v: seq<bool>, a: nat, b: nat)
    requires AreBlocks(blocks, k, w) && |v| == w && !AllClear(v) && a <= b < k
    requires forall r :: 0 <= r < w ==> Product(blocks[a][r], v) == (a != b && Product(blocks[b][r], v))
    ensures !Survives(blocks, k, w)
  {
    hide Product;
    var clear := seq(w, _ => false);
    var d, e := OnTwo(v, a, b, k), OnTwo(clear, a, b, k);
    var lost2 := if a == b then k else b;
    forall r: nat | r < w
      ensures a != b ==> !ParityBit(d, r)
      ensures Shapes(blocks, d, r) && Shapes(blocks, e, r)
      ensures !ParityBit(e, r) && !CodeBit(blocks, d, r) && !CodeBit(blocks, e, r)
    {
      ParityOfTwo(d, r, a, b);
      CodeOfTwo(blocks, d, r, a, b);
      ParityOfNone(e, r);
      CodeOfNone(blocks, e, r);
    }
    forall id: nat | id < k + 2 && id != a && id != lost2
      ensures SameDevice(blocks, d, e, k, w, id)
    {}
    assert SameBut(blocks, d, e, k, w, a, lost2);
    assert d[a] == v && e[a] == clear;
  }

  lemma SingularHides(blocks: seq<seq<seq<bool>>>, k: nat, w: nat, j: nat)
    requires AreBlocks(blocks, k, w) && j < k && !Invertible(blocks[j], w)
    ensures !Survives(blocks, k, w)
  {
    hide Product, Survives;
    var v :| |v| == w && (forall r :: 0 <= r < w ==> !Product(blocks[j][r], v)) && !AllClear(v);
    KernelHides(blocks, k, w, v, j, j);
  }

  lemma SingularSumHides(blocks: seq<seq<seq<bool>>>, k: nat, w: nat, i: nat, j: nat)
    requires AreBlocks(blocks, k, w) && i < j < k && !SumInvertible(blocks[i], blocks[j], w)
    ensures !Survives(blocks, k, w)
  {
    hide Product, Survives;
    var v :| |v| == w && (forall r :: 0 <= r < w ==> Product(blocks[i][r], v) == Product(blocks[j][r], v)) && !AllClear(v);
    KernelHides(blocks, k, w, v, i, j);
  }

  /** Good blocks are exactly those that survive any two lost devices. */
  lemma SurvivesIffGood(blocks: seq<seq<seq<bool>>>, k: nat, w: nat)
    requires AreBlocks(blocks, k, w)
    ensures Survives(blocks, k, w) <==> GoodBlocks(blocks, w)
  {
    hide Product, SameDevice, Invertible, SumInvertible;
    if GoodBlocks(blocks, w) {
      forall d, e, lost1: nat, lost2: nat |
        IsData(d, k, w) && IsData(e, k, w) && SameBut(blocks, d, e, k, w, lost1, lost2)
        ensures d == e
      {
        SurvivesTwoLosses(blocks, d, e, k, w, lost1, lost2);
      }
    } else if exists j :: 0 <= j < k && !Invertible(blocks[j], w) {
      var j :| 0 <= j < k && !Invertible(blocks[j], w);
      SingularHides(blocks, k, w, j);
    } else {
      var i, j :| 0 <= i < j < k && !SumInvertible(blocks[i], blocks[j], w);
      SingularSumHides(blocks, k, w, i, j);
    }
  }
}
