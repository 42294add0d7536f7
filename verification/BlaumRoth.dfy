/** blaum_roth_coding_bitmatrix: RAID-6 blocks, a code whenever p = w + 1 is prime. */
module BlaumRoth {
  import opened Modular
  import opened Cycle
  import opened BitCode

  /** The second one of the row with two ones, counted from 1: i / 2 modulo p. */
  function Half(p: nat, i: nat): nat {
    if i % 2 == 0 then i / 2 else p / 2 + 1 + i / 2
  }

  /** Row l, column c of block j, both counted from 1. */
  predicate Cell(p: nat, j: nat, l: nat, c: nat) {
    if j == 0 then c == l
    else if l != p - j then c == (if l + j >= p then l + j - p else l + j)
    else c == j || c == Half(p, j)
  }

  /** The same with row and column counted from 0. */
  predicate BlockCell(w: nat, j: nat, r: nat, c: nat) {
    Cell(w + 1, j, r + 1, c + 1)
  }

  function Block(w: nat, j: nat): (x: seq<seq<bool>>)
    ensures IsBlock(x, w)
  {
    seq(w, r requires 0 <= r < w => seq(w, c requires 0 <= c < w => BlockCell(w, j, r, c)))
  }

  /** The second one of a two-ones row is another column of the row, whatever w is. */
  lemma HalfInRange(p: nat, i: nat)
    requires 0 < i < p - 1
    ensures 0 < Half(p, i) < p && Half(p, i) != i
  {}

  function Blocks(w: nat, k: nat): (x: seq<seq<seq<bool>>>)
    ensures AreBlocks(x, k, w)
  {
    seq(k, j requires 0 <= j < k => Block(w, j))
  }

  /** The vector with an extra clear entry in front, so that positions are residues modulo p. */
  function Padded(v: seq<bool>): (x: seq<bool>)
    ensures |x| == |v| + 1 && !x[0]
  {
    [false] + v
  }

  lemma HalfIsHalf(p: nat, i: nat)
    requires p % 2 == 1 && 0 < i < p
    ensures 0 < Half(p, i) < p && (2 * Half(p, i)) % p == i && Half(p, i) != i
  {
    if i % 2 == 0 {
      ModSmall(i, p);
    } else {
      assert 2 * Half(p, i) == p + i;
      ModShift(i, 1, p);
      ModSmall(i, p);
    }
  }

  /** Residues with the same double modulo an odd prime are the same. */
  lemma DoubleInjective(p: nat, x: nat, y: nat)
    requires p % 2 == 1 && x < p && y < p && (2 * x) % p == (2 * y) % p
    ensures x == y
  {
    if p > 1 {
      ModEqual(2 * x, 2 * y, p);
      CancelFactor(x - y, 2, p);
    }
    if x > y { ModSmall(x - y, p); } else if x < y { ModShift(x - y, 1, p); ModSmall(x - y + p, p); }
  }

  /** Row l of block j applied to v, in terms of the padded vector x. */
  predicate RowValue(p: nat, j: nat, l: nat, x: seq<bool>)
    requires |x| == p && 0 < j ==> Half(p, j) < p
    requires |x| == p > 0 && j < p
  {
    x[(l + j) % p] != (j > 0 && l == p - j && (x[j] != x[Half(p, j)]))
  }

  lemma WrapPosition(p: nat, j: nat, l: nat)
    requires 0 < l < p && j < p && l != p - j
    ensures 0 < (l + j) % p < p && (l + j) % p == if l + j >= p then l + j - p else l + j
  {
    if l + j >= p {
      ModShift(l + j - p, 1, p);
      ModSmall(l + j - p, p);
    } else {
      ModSmall(l + j, p);
    }
  }

  /** Block j by positions modulo w + 1: row i reads position i + j, and where that is 0 positions j and j / 2. */
  lemma CellAt(w: nat, j: nat, i: nat, c: nat)
    requires j < w && i < w && c < w
    ensures Block(w, j)[i][c] <==>
      if i + 1 + j == w + 1 then c + 1 == j || c + 1 == (if j % 2 == 0 then j / 2 else (w + 1) / 2 + 1 + j / 2)
      else c + 1 == (i + 1 + j) % (w + 1)
  {
    if i + 1 + j != w + 1 { WrapPosition(w + 1, j, i + 1); }
  }

  lemma RowCells(w: nat, j: nat, l: nat, row: seq<bool>)
    requires 0 < l <= w && row == Block(w, j)[l - 1]
    ensures |row| == w && forall i: nat :: i < w ==> row[i] == Cell(w + 1, j, l, i + 1)
  {}

  lemma {:induction false} RowProduct(w: nat, j: nat, l: nat, v: seq<bool>)
    requires |v| == w && 0 < l <= w && j < w
    ensures 0 < j ==> Half(w + 1, j) < w + 1
    ensures Product(Block(w, j)[l - 1], v) == RowValue(w + 1, j, l, Padded(v))
  {
    hide Product, Half, Block;
    var p, x, row := w + 1, Padded(v), Block(w, j)[l - 1];
    RowCells(w, j, l, row);
    if j > 0 { HalfInRange(p, j); }
    if j > 0 && l == p - j {
      var h := Half(p, j);
      ModShift(0, 1, p);
      ModSmall(0, p);
      assert (l + j) % p == 0;
      assert x[j] == v[j - 1] && x[h] == v[h - 1];
      ProductTwo(row, v, j - 1, h - 1);
    } else {
      var m := (l + j) % p;
      WrapPosition(p, j, l);
      assert forall i: nat :: i < w ==> (row[i] <==> i == m - 1);
      assert x[m] == v[m - 1];
      ProductOne(row, v, m - 1);
    }
  }

  /** A row with a single one clears the position it reads. */
  lemma ClearPosition(p: nat, j: nat, x: seq<bool>, q: nat)
    requires j < p && |x| == p && (0 < j ==> Half(p, j) < p) && 0 < q < p && (j == 0 || q != j)
    requires forall l: nat :: 0 < l < p ==> !RowValue(p, j, l, x)
    ensures !x[q]
  {
    hide Half;
    var l := (q - j) % p;
    ModAdd(j, q - j, p);
    ModSmall(q, p);
    if l == 0 { ModSmall(j, p); }
    if j > 0 && l == p - j { ModShift(0, 1, p); ModSmall(0, p); }
    assert !RowValue(p, j, l, x);
  }

  /** Each block is invertible. */
  lemma BlockInvertible(w: nat, j: nat)
    requires j < w
    ensures Invertible(Block(w, j), w)
  {
    hide Product, Half, RowValue, Block;
    var p := w + 1;
    if j > 0 { HalfInRange(p, j); }
    forall v | |v| == w && (forall r :: 0 <= r < w ==> !Product(Block(w, j)[r], v))
      ensures AllClear(v)
    {
      var x := Padded(v);
      forall l: nat | 0 < l < p
        ensures !RowValue(p, j, l, x)
      {
        RowProduct(w, j, l, v);
      }
      forall q: nat | 0 < q < p && (j == 0 || q != j)
        ensures !x[q]
      {
        ClearPosition(p, j, x, q);
      }
      if j > 0 { ClearLast(p, j, x); }
      forall i | 0 <= i < w ensures !v[i] { assert x[i + 1] == v[i]; }
    }
  }

  /** The row with two ones clears the remaining position. */
  lemma ClearLast(p: nat, j: nat, x: seq<bool>)
    requires 0 < j < p && |x| == p && !x[0] && Half(p, j) < p && !x[Half(p, j)] && !RowValue(p, j, p - j, x)
    ensures !x[j]
  {
    hide Half;
    ModShift(0, 1, p);
    ModSmall(0, p);
  }

  /** The padded vector is in the kernel of block a plus block a + d. */
  ghost predicate InPairKernel(p: nat, a: nat, d: nat, x: seq<bool>) {
    a + d < p && |x| == p && !x[0] &&
    (0 < a ==> Half(p, a) < p) && (0 < a + d ==> Half(p, a + d) < p) &&
    forall l: nat :: 0 < l < p ==> RowValue(p, a, l, x) == RowValue(p, a + d, l, x)
  }

  /** The row that links position q with q + d; it is none of the special ones. */
  lemma LinkRow(p: nat, a: nat, d: nat, q: nat) returns (l: nat)
    requires a + d < p && 0 < q < p && q != a && (q + d) % p != 0
    ensures 0 < l < p && (l + a) % p == q && (l + (a + d)) % p == (q + d) % p
    ensures (a > 0 ==> l != p - a) && l != p - (a + d)
  {
    var y: int := q - a;
    l := y % p;
    ModAdd(a, y, p);
    ModAdd(a + d, y, p);
    ModSmall(q, p);
    ModSmall(a, p);
    ModShift(0, 1, p);
    ModSmall(0, p);
  }

  /** Row l links l + a with l + a + d on the walk 0, d, 2d, ... */
  lemma PlainLink(p: nat, a: nat, d: nat, x: seq<bool>, t: nat)
    requires Generates(d, p) && a + d < p && |x| == p && InPairKernel(p, a, d, x)
    requires 0 < t < p - 1 && Pos(0, d, p, t) != a
    ensures x[Pos(0, d, p, t)] == x[Pos(0, d, p, t + 1)]
  {
    hide Half, Pos;
    Walk(d, p, t);
    ModAdd(d, t * d, p);
    PosInjectiveFrom(d, p, t, 0);
    PosInjectiveFrom(d, p, t + 1, p);
    var l := LinkRow(p, a, d, Pos(0, d, p, t));
    assert RowValue(p, a, l, x) == RowValue(p, a + d, l, x);
  }

  lemma Walk(d: nat, p: nat, t: int)
    requires p > 0
    ensures Pos(0, d, p, t) == (t * d) % p && Pos(0, d, p, t + 1) == (t * d + d) % p
    ensures Pos(0, d, p, 0) == 0 && Pos(0, d, p, p) == 0
  {
    PosStep(0, d, p, t);
    PosTurn(0, d, p, 0);
    ModSmall(0, p);
  }

  lemma PosInjectiveFrom(d: nat, p: nat, t: nat, u: nat)
    requires Generates(d, p) && t != u && t - u < p && u - t < p
    ensures Pos(0, d, p, t) != Pos(0, d, p, u)
  {
    if Pos(0, d, p, t) == Pos(0, d, p, u) { PosInjectiveNear(0, d, p, t, u); }
  }

  /** The rows with two ones clear the positions a / 2 and b / 2, given the ends of the walk. */
  lemma TwoOnesRows(p: nat, a: nat, d: nat, x: seq<bool>)
    requires Generates(d, p) && a + d < p && |x| == p && InPairKernel(p, a, d, x)
    ensures a > 0 ==> x[Half(p, a)] == (x[a] != x[Pos(0, d, p, 1)])
    ensures x[Half(p, a + d)] == (x[a + d] != x[Pos(0, d, p, p - 1)])
  {
    hide Half, Pos;
    var b := a + d;
    Walk(d, p, 0);
    Walk(d, p, p - 1);
    assert (p - 1) * d == p - d + (d - 1) * p;
    ModShift(p - d, d - 1, p);
    ModSmall(p - d, p);
    ModSmall(d, p);
    ModShift(0, 1, p);
    ModSmall(0, p);
    if a > 0 {
      ModShift(d, 1, p);
      assert RowValue(p, a, p - a, x) == RowValue(p, b, p - a, x);
    }
    assert RowValue(p, a, p - b, x) == RowValue(p, b, p - b, x);
  }

  /** Half of the exponent of i on the walk, modulo p. */
  function HalfStep(p: nat, t: nat): (u: nat)
    ensures 2 * u == t || (p % 2 == 1 ==> 2 * u == t + p)
  {
    if t % 2 == 0 then t / 2 else (t + p) / 2
  }

  lemma DoubleSteps(p: nat, d: nat, t: nat, u: nat)
    requires p > 0 && (2 * u == t || 2 * u == t + p)
    ensures (2 * Pos(0, d, p, u)) % p == Pos(0, d, p, t)
  {
    var x, y := u * d, t * d;
    ModMul(2, x, p);
    if 2 * u == t {
      Scaled(2, u, d, t);
    } else {
      Scaled(2, u, d, t + p);
      assert (t + p) * d == y + d * p;
      ModShift(y, d, p);
    }
  }

  lemma Scaled(c: int, u: int, d: int, t: int)
    requires c * u == t
    ensures c * (u * d) == t * d
  {}

  /** Where half of a residue lies on the walk, from where the residue lies. */
  lemma HalfOnWalk(p: nat, d: nat, i: nat, t: nat)
    requires Generates(d, p) && p % 2 == 1 && 0 < i < p && t < p && Pos(0, d, p, t) == i
    ensures Half(p, i) < p && Pos(0, d, p, HalfStep(p, t)) == Half(p, i)
  {
    hide Half, Pos;
    HalfIsHalf(p, i);
    var u := HalfStep(p, t);
    DoubleSteps(p, d, t, u);
    DoubleInjective(p, Pos(0, d, p, u), Half(p, i));
  }

  /** The vector takes one value up to position a of the walk and one value after it. */
  lemma WalkConstant(p: nat, a: nat, d: nat, x: seq<bool>, ta: nat)
    requires Generates(d, p) && a + d < p && |x| == p && InPairKernel(p, a, d, x)
    requires ta < p - 1 && Pos(0, d, p, ta) == a
    ensures forall t :: 1 <= t <= ta ==> x[Pos(0, d, p, t)] == x[Pos(0, d, p, 1)]
    ensures forall t :: ta < t <= p - 1 ==> x[Pos(0, d, p, t)] == x[Pos(0, d, p, p - 1)]
  {
    hide Half, Pos, InPairKernel;
    forall t: nat | 0 < t < p - 1 && t != ta
      ensures x[Pos(0, d, p, t)] == x[Pos(0, d, p, t + 1)]
    {
      PosInjectiveFrom(d, p, t, ta);
      PlainLink(p, a, d, x, t);
    }
    forall t | 1 <= t <= ta
      ensures x[Pos(0, d, p, t)] == x[Pos(0, d, p, 1)]
    {
      Constant(x, 0, d, p, 1, t);
    }
    forall t | ta < t <= p - 1
      ensures x[Pos(0, d, p, t)] == x[Pos(0, d, p, p - 1)]
    {
      Constant(x, 0, d, p, t, p - 1);
    }
  }

  /** Both values are clear. */
  lemma WalkClear(p: nat, a: nat, d: nat, x: seq<bool>, ta: nat)
    requires Generates(d, p) && p % 2 == 1 && a + d < p - 1 && |x| == p && InPairKernel(p, a, d, x)
    requires ta < p - 1 && Pos(0, d, p, ta) == a && Pos(0, d, p, ta + 1) == a + d && (a == 0 <==> ta == 0)
    ensures forall t :: 1 <= t <= p - 1 ==> !x[Pos(0, d, p, t)]
  {
    hide Half, Pos, InPairKernel;
    WalkConstant(p, a, d, x, ta);
    TwoOnesRows(p, a, d, x);
    HalfOnWalk(p, d, a + d, ta + 1);
    if a > 0 { HalfOnWalk(p, d, a, ta); }
  }

  /** The sum of two different blocks has a trivial kernel. */
  lemma PairKernelTrivial(p: nat, a: nat, d: nat, x: seq<bool>)
    requires Generates(d, p) && p % 2 == 1 && a + d < p - 1 && |x| == p && !x[0] && InPairKernel(p, a, d, x)
    ensures AllClear(x)
  {
    hide Half, Pos, InPairKernel;
    Walk(d, p, 0);
    var ta := PosReaches(0, d, p, a);
    ModSmall(a, p);
    NextOnWalk(p, a, d, ta);
    WalkClear(p, a, d, x, ta);
    forall q | 0 <= q < p
      ensures !x[q]
    {
      var t := PosReaches(0, d, p, q);
      ModSmall(q, p);
    }
  }

  lemma NextOnWalk(p: nat, a: nat, d: nat, t: nat)
    requires Generates(d, p) && a + d < p && t < p && Pos(0, d, p, t) == a
    ensures t < p - 1 && Pos(0, d, p, t + 1) == a + d && (a > 0 ==> t > 0) && (a == 0 ==> t == 0)
  {
    hide Pos;
    Walk(d, p, t);
    ModAdd(d, t * d, p);
    ModSmall(a + d, p);
    if t == p - 1 { Walk(d, p, p); }
    if a == 0 && t > 0 { PosInjectiveFrom(d, p, t, 0); }
  }

  /** Blocks 0 and 1 for any p: all positions are equal, and the row with two ones clears one. */
  lemma FirstPairTrivial(p: nat, x: seq<bool>)
    requires p > 2 && InPairKernel(p, 0, 1, x)
    ensures AllClear(x)
  {
    hide Half, Pos;
    HalfInRange(p, 1);
    forall t | 0 < t < p - 1
      ensures x[Pos(0, 1, p, t)] == x[Pos(0, 1, p, t + 1)]
    {
      OneStep(p, t);
      ModSmall(t, p);
      assert RowValue(p, 0, t, x) == RowValue(p, 1, t, x);
    }
    forall t | 0 < t < p
      ensures x[t] == x[1]
    {
      OneStep(p, t);
      OneStep(p, 1);
      Constant(x, 0, 1, p, 1, t);
    }
    ModSmall(p - 1, p);
    ModShift(0, 1, p);
    assert RowValue(p, 0, p - 1, x) == RowValue(p, 1, p - 1, x);
  }

  lemma OneStep(p: nat, t: nat)
    requires t < p
    ensures Pos(0, 1, p, t) == t && (t + 1 < p ==> Pos(0, 1, p, t + 1) == t + 1 == (t + 1) % p)
  {
    ModSmall(t, p);
    if t + 1 < p { ModSmall(t + 1, p); }
  }

  /** Any pair, if no number from 2 to its greater index divides p. */
  lemma PairTrivial(p: nat, a: nat, b: nat, x: seq<bool>)
    requires a < b < p - 1 && NoDivisorBelow(p, b + 1) && InPairKernel(p, a, b - a, x)
    ensures AllClear(x)
  {
    if p % 2 == 1 {
      PairKernelTrivial(p, a, b - a, x);
    } else {
      assert Divides(2, p);
      FirstPairTrivial(p, x);
    }
  }

  /** The pair kernel in terms of the blocks. */
  lemma PairInvertible(w: nat, i: nat, j: nat)
    requires i < j < w && NoDivisorBelow(w + 1, j + 1)
    ensures SumInvertible(Block(w, i), Block(w, j), w)
  {
    hide Product, Block, Half, RowValue;
    var p := w + 1;
    HalfInRange(p, j);
    if i > 0 { HalfInRange(p, i); }
    forall v | |v| == w && forall r :: 0 <= r < w ==> Product(Block(w, i)[r], v) == Product(Block(w, j)[r], v)
      ensures AllClear(v)
    {
      var x := Padded(v);
      forall l: nat | 0 < l < p
        ensures RowValue(p, i, l, x) == RowValue(p, i + (j - i), l, x)
      {
        RowProduct(w, i, l, v);
        RowProduct(w, j, l, v);
        assert Product(Block(w, i)[l - 1], v) == Product(Block(w, j)[l - 1], v);
      }
      PairTrivial(p, i, j, x);
      forall c | 0 <= c < w ensures !v[c] { assert x[c + 1] == v[c]; }
    }
  }

  lemma BlocksGood(w: nat, k: nat)
    requires k <= w && NoDivisorBelow(w + 1, k)
    ensures GoodBlocks(Blocks(w, k), w)
  {
    hide Product, Block, Invertible, SumInvertible;
    forall j | 0 <= j < k
      ensures Invertible(Blocks(w, k)[j], w)
    {
      BlockInvertible(w, j);
    }
    forall i, j | 0 <= i < j < k
      ensures SumInvertible(Blocks(w, k)[i], Blocks(w, k)[j], w)
    {
      PairInvertible(w, i, j);
    }
  }

  /** The vector of a residue class modulo m, position 0 always clear. */
  function ClassVector(w: nat, m: nat, c: nat): (v: seq<bool>)
    requires m > 0
    ensures |v| == w && forall q :: 0 < q < w + 1 ==> (Padded(v)[q] <==> q % m == c)
  {
    seq(w, i => (i + 1) % m == c)
  }

  /** If m divides an odd p, blocks 0 and m agree on the residue class of 1 modulo m. */
  lemma OddDivisorAgrees(p: nat, m: nat, l: nat)
    requires p % 2 == 1 && 2 <= m < p && Divides(m, p) && 0 < l < p
    ensures Half(p, m) < p
    ensures var x := Padded(ClassVector(p - 1, m, 1)); RowValue(p, 0, l, x) == RowValue(p, m, l, x)
  {
    hide Half, ClassVector;
    HalfIsHalf(p, m);
    HalfOfDivisor(p, m);
    ModSmall(0, m);
    ModSmall(l, p);
    ModOfMod(l + m, m, p);
    ModShift(l, 1, m);
    ModShift(0, 1, m);
  }

  /** For an even p, blocks 0 and 2 agree on the even positions. */
  lemma EvenAgrees(p: nat, l: nat)
    requires p % 2 == 0 && 0 < l < p && p > 3
    ensures Half(p, 2) == 1
    ensures var x := Padded(ClassVector(p - 1, 2, 0)); RowValue(p, 0, l, x) == RowValue(p, 2, l, x)
  {
    hide ClassVector;
    ModSmall(l, p);
    if l == p - 2 {
      ModShift(0, 1, p);
    } else {
      WrapPosition(p, 2, l);
    }
  }

  /** If m divides w + 1, blocks 0 and m, or 0 and 2 if w + 1 is even, agree on a residue class. */
  lemma DivisorSpoils(w: nat, k: nat, m: nat)
    requires 2 <= m < k <= w && Divides(m, w + 1)
    ensures !GoodBlocks(Blocks(w, k), w)
  {
    hide Product, Half, Block, RowValue, ClassVector;
    var p := w + 1;
    var n, c := if p % 2 == 1 then m else 2, if p % 2 == 1 then 1 else 0;
    var v := ClassVector(w, n, c);
    forall r | 0 <= r < w
      ensures Product(Block(w, 0)[r], v) == Product(Block(w, n)[r], v)
    {
      if p % 2 == 1 { OddDivisorAgrees(p, m, r + 1); } else { EvenAgrees(p, r + 1); }
      RowProduct(w, 0, r + 1, v);
      RowProduct(w, n, r + 1, v);
    }
    ModSmall(1, m);
    assert Padded(v)[if p % 2 == 1 then 1 else 2];
    assert !AllClear(v);
    assert Blocks(w, k)[0] == Block(w, 0) && Blocks(w, k)[n] == Block(w, n);
    assert !SumInvertible(Blocks(w, k)[0], Blocks(w, k)[n], w);
  }

  /** Half of an odd divisor of p is a multiple of it. */
  lemma HalfOfDivisor(p: nat, m: nat)
    requires p % 2 == 1 && 2 <= m < p && Divides(m, p)
    ensures Half(p, m) % m == 0
  {
    var n := p / m;
    assert p == n * m;
    OddFactor(n, m);
    var h := (n + 1) / 2;
    assert 2 * Half(p, m) == p + m;
    assert p + m == 2 * h * m;
    ModUnique(Half(p, m), h, 0, m);
  }

  lemma OddFactor(n: nat, m: nat)
    requires (n * m) % 2 == 1
    ensures n % 2 == 1 && m % 2 == 1
  {
    var a, r, b, s := n / 2, n % 2, m / 2, m % 2;
    var q := a * m + r * b;
    assert n * m == (2 * a + r) * m == 2 * (a * m) + r * m;
    assert r * m == r * (2 * b + s) == 2 * (r * b) + r * s;
    assert n * m == 2 * q + r * s;
  }

  /** The blocks give a code that survives any two lost devices exactly if no number from 2 to k - 1
      divides w + 1; if w + 1 is prime that is every k up to w. */
  lemma BlocksGoodIff(w: nat, k: nat)
    requires k <= w
    ensures Survives(Blocks(w, k), k, w) <==> NoDivisorBelow(w + 1, k)
    ensures GoodBlocks(Blocks(w, k), w) <==> NoDivisorBelow(w + 1, k)
    ensures IsPrime(w + 1) ==> GoodBlocks(Blocks(w, k), w)
  {
    hide Survives, Blocks;
    SurvivesIffGood(Blocks(w, k), k, w);
    if NoDivisorBelow(w + 1, k) {
      BlocksGood(w, k);
    } else {
      var m: nat :| 2 <= m <= k - 1 && Divides(m, w + 1);
      DivisorSpoils(w, k, m);
    }
  }
}
