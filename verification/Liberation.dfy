/** liberation_coding_bitmatrix: minimal-density RAID-6 blocks, a code for every prime w. */
module Liberation {
  import opened Modular
  import opened Cycle
  import opened BitCode

  /** The row of the extra one of block j. */
  function ExtraRow(w: nat, j: nat): (r: nat)
    requires w > 0
    ensures r < w
  {
    (j * ((w - 1) / 2)) % w
  }

  /** Row r, column c of block j: a diagonal shifted by j, and for j > 0 one extra one. */
  predicate Cell(w: nat, j: nat, r: nat, c: nat)
    requires w > 0
  {
    c == (j + r) % w || (j > 0 && r == ExtraRow(w, j) && c == (r + j - 1) % w)
  }

  function Block(w: nat, j: nat): (x: seq<seq<bool>>)
    requires w > 0
    ensures IsBlock(x, w)
  {
    seq(w, r requires 0 <= r < w => seq(w, c requires 0 <= c < w => Cell(w, j, r, c)))
  }

  function Blocks(w: nat, k: nat): (x: seq<seq<seq<bool>>>)
    requires w > 0
    ensures AreBlocks(x, k, w)
  {
    seq(k, j requires 0 <= j < k => Block(w, j))
  }

  /** Row r of block j applied to v. */
  predicate RowValue(w: nat, j: nat, r: nat, v: seq<bool>)
    requires |v| == w > 0
  {
    v[(j + r) % w] != (j > 0 && r == ExtraRow(w, j) && v[(r + j - 1) % w])
  }

  lemma Neighbours(x: int, w: nat)
    requires w > 1
    ensures x % w != (x - 1) % w
  {
    if x % w == (x - 1) % w {
      ModEqual(x, x - 1, w);
      ModSmall(1, w);
    }
  }

  lemma {:induction false} RowProduct(w: nat, j: nat, r: nat, v: seq<bool>)
    requires |v| == w > 0 && j < w && r < w
    ensures Product(Block(w, j)[r], v) == RowValue(w, j, r, v)
  {
    hide Product;
    var row := Block(w, j)[r];
    if j > 0 && r == ExtraRow(w, j) {
      Neighbours(j + r, w);
      ProductTwo(row, v, (j + r) % w, (r + j - 1) % w);
    } else {
      ProductOne(row, v, (j + r) % w);
    }
  }

  /** Each block is invertible. */
  lemma BlockInvertible(w: nat, j: nat)
    requires j < w
    ensures Invertible(Block(w, j), w)
  {
    hide Product, ExtraRow;
    forall v | |v| == w && (forall r :: 0 <= r < w ==> !Product(Block(w, j)[r], v))
      ensures AllClear(v)
    {
      forall r: nat | r < w
        ensures !RowValue(w, j, r, v)
      {
        RowProduct(w, j, r, v);
      }
      forall q: nat | q < w
        ensures q != (j + ExtraRow(w, j)) % w || j == 0 ==> !v[q]
      {
        var r := (q - j) % w;
        ModAdd(j, q - j, w);
        ModSmall(q, w);
        assert !RowValue(w, j, r, v);
      }
      if j > 0 {
        var e := ExtraRow(w, j);
        Neighbours(j + e, w);
        assert !RowValue(w, j, e, v);
      }
    }
  }

  /** Where the extra ones of blocks a and a + d break the walk that starts at P = a / 2. */
  lemma ExtraPositions(w: nat, a: nat, d: nat)
    requires w > 0 && w % 2 == 1
    ensures var h := (w + 1) / 2; var p := a * h;
      (a + ExtraRow(w, a)) % w == p % w && (ExtraRow(w, a) + a - 1) % w == (p - 1) % w &&
      (a + ExtraRow(w, a + d)) % w == (p + (h - 1) * d) % w &&
      (a + d + ExtraRow(w, a + d) - 1) % w == (p + h * d - 1) % w
  {
    var h, b := (w + 1) / 2, a + d;
    assert (w - 1) / 2 == h - 1 && 2 * h == w + 1;
    var x, y := a * (h - 1), b * (h - 1);
    HalfProducts(a, d, h);
    ModAdd(a, x, w);
    ModAdd(a - 1, x, w);
    ModAdd(a, y, w);
    ModAdd(b - 1, y, w);
  }

  lemma HalfProducts(a: int, d: int, h: int)
    ensures a + a * (h - 1) == a * h
    ensures a + (a + d) * (h - 1) == a * h + (h - 1) * d
    ensures a + d + (a + d) * (h - 1) == a * h + h * d
  {
    assert (a + d) * (h - 1) == a * (h - 1) + d * (h - 1);
  }

  /** The vector is in the kernel of block a plus block a + d. */
  ghost predicate InPairKernel(w: nat, a: nat, d: nat, v: seq<bool>)
    requires w > 0
  {
    |v| == w && forall r: nat :: r < w ==> RowValue(w, a, r, v) == RowValue(w, a + d, r, v)
  }

  /** The row of the pair that links positions t and t + 1 of the walk from P. */
  lemma LinkRow(w: nat, a: nat, d: nat, p: int, t: int) returns (r: nat)
    requires w > 0
    ensures r < w && (a + r) % w == Pos(p, d, w, t) && (a + d + r) % w == Pos(p, d, w, t + 1)
  {
    hide Pos;
    var x := p + t * d;
    var y: int := x - a;
    r := y % w;
    PosIs(p, d, w, t);
    PosStep(p, d, w, t);
    ModAdd(a, y, w);
    ModAdd(a + d, y, w);
    assert a + y == x && a + d + y == x + d;
  }

  lemma PosIs(p: int, d: nat, w: nat, t: int)
    requires w > 0
    ensures Pos(p, d, w, t) == (p + t * d) % w
  {}

  lemma RowOfPosition(w: nat, a: nat, r: nat, r': nat)
    requires w > 0 && r < w && r' < w && (a + r) % w == (a + r') % w
    ensures r == r'
  {
    ModEqual(a + r, a + r', w);
    if r > r' { ModSmall(r - r', w); } else if r < r' { ModShift(r - r', 1, w); ModSmall(r - r' + w, w); }
  }

  /** Along the walk the vector only changes at the two extra ones. */
  lemma PlainLink(w: nat, a: nat, d: nat, v: seq<bool>, t: int)
    requires Generates(d, w) && w % 2 == 1 && a + d < w && InPairKernel(w, a, d, v)
    requires 0 <= t < w && (t == 0 ==> a == 0) && t != (w + 1) / 2 - 1
    ensures var p := a * ((w + 1) / 2); v[Pos(p, d, w, t)] == v[Pos(p, d, w, t + 1)]
  {
    hide ExtraRow, Pos, NoDivisorBelow;
    var h, p := (w + 1) / 2, a * ((w + 1) / 2);
    var r := LinkRow(w, a, d, p, t);
    ExtraPositions(w, a, d);
    WalkEnds(p, d, w, h);
    if a > 0 && r == ExtraRow(w, a) { PosInjectiveNear(p, d, w, t, 0); }
    if r == ExtraRow(w, a + d) { PosInjectiveNear(p, d, w, t, h - 1); }
    assert RowValue(w, a, r, v) == RowValue(w, a + d, r, v);
  }

  lemma WalkEnds(p: int, d: nat, w: nat, h: nat)
    requires w > 0
    ensures Pos(p, d, w, 0) == p % w && Pos(p, d, w, h - 1) == (p + (h - 1) * d) % w
  {}

  /** Rows a and a + d of the extra ones themselves. */
  lemma ExtraLinks(w: nat, a: nat, d: nat, v: seq<bool>)
    requires Generates(d, w) && w % 2 == 1 && a + d < w && InPairKernel(w, a, d, v)
    ensures var h := (w + 1) / 2; var p := a * h;
      (a > 0 ==> v[(p - 1) % w] == (v[Pos(p, d, w, 0)] != v[Pos(p, d, w, 1)])) &&
      v[(p + h * d - 1) % w] == (v[Pos(p, d, w, h - 1)] != v[Pos(p, d, w, h)])
  {
    hide ExtraRow, Pos;
    var h, p := (w + 1) / 2, a * ((w + 1) / 2);
    ExtraPositions(w, a, d);
    WalkEnds(p, d, w, h);
    var e, g := ExtraRow(w, a), ExtraRow(w, a + d);
    if e == g && a > 0 {
      PosInjectiveNear(p, d, w, 0, h - 1);
    }
    var r := LinkRow(w, a, d, p, 0);
    RowOfPosition(w, a, r, e);
    assert RowValue(w, a, e, v) == RowValue(w, a + d, e, v);
    var s := LinkRow(w, a, d, p, h - 1);
    RowOfPosition(w, a, s, g);
    assert RowValue(w, a, g, v) == RowValue(w, a + d, g, v);
  }

  /** The sum of two different blocks has a trivial kernel. */
  lemma PairKernelTrivial(w: nat, a: nat, d: nat, v: seq<bool>)
    requires Generates(d, w) && w % 2 == 1 && a + d < w && |v| == w && InPairKernel(w, a, d, v)
    ensures AllClear(v)
  {
    hide ExtraRow, Pos, InPairKernel;
    var h, p := (w + 1) / 2, a * ((w + 1) / 2);
    forall t | 0 <= t < w && (t == 0 ==> a == 0) && t != h - 1
      ensures v[Pos(p, d, w, t)] == v[Pos(p, d, w, t + 1)]
    {
      PlainLink(w, a, d, v, t);
    }
    var first, second := v[Pos(p, d, w, 1)], v[Pos(p, d, w, h)];
    forall t | 1 <= t <= h - 1
      ensures v[Pos(p, d, w, t)] == first
    {
      Constant(v, p, d, w, 1, t);
    }
    forall t | h <= t <= w
      ensures v[Pos(p, d, w, t)] == second
    {
      Constant(v, p, d, w, h, t);
    }
    PosTurn(p, d, w, 0);
    ExtraLinks(w, a, d, v);
    var t1 := PosReaches(p, d, w, p - 1);
    WalkEnds(p, d, w, h);
    Neighbours(p, w);
    assert 1 <= t1 < w;
    HalfTurn(p, d, w, h, t1);
    assert !first && !second;
    forall q | 0 <= q < w
      ensures !v[q]
    {
      var t := PosReaches(p, d, w, q);
      ModSmall(q, w);
    }
  }

  /** h steps after P - 1 comes P + h d - 1; past the end of the turn it is counted from the start. */
  lemma HalfTurn(p: int, d: nat, w: nat, h: nat, t1: nat)
    requires w > 0 && Pos(p, d, w, t1) == (p - 1) % w
    ensures Pos(p, d, w, t1 + h) == (p + h * d - 1) % w
    ensures Pos(p, d, w, t1 + h - w) == (p + h * d - 1) % w
  {
    hide Pos;
    PosIs(p, d, w, t1);
    PosIs(p, d, w, t1 + h);
    Distribute(t1, h, d);
    SameSum(p + t1 * d, p - 1, h * d, w);
    PosTurn(p, d, w, t1 + h - w);
  }

  lemma Distribute(x: int, y: int, d: int)
    ensures (x + y) * d == x * d + y * d
  {}

  lemma SameSum(x: int, x': int, y: int, w: int)
    requires w > 0 && x % w == x' % w
    ensures (x + y) % w == (x' + y) % w
  {
    ModAdd(y, x, w);
    ModAdd(y, x', w);
  }

  /** Blocks 0 and 1 for any w: one walk from behind the extra one back to it. */
  lemma FirstPairTrivial(w: nat, v: seq<bool>)
    requires w > 1 && InPairKernel(w, 0, 1, v)
    ensures AllClear(v)
  {
    hide ExtraRow, Pos;
    var e := ExtraRow(w, 1);
    var s := e + 1;
    ModSmall(e, w);
    forall t | 0 <= t < w - 1
      ensures v[Pos(s, 1, w, t)] == v[Pos(s, 1, w, t + 1)]
    {
      var r := LinkRow(w, 0, 1, s, t);
      ModSmall(r, w);
      if r == e {
        PosIs(s, 1, w, t);
        ModEqual(s + t, e, w);
        ModSmall(t + 1, w);
      }
      assert RowValue(w, 0, r, v) == RowValue(w, 1, r, v);
    }
    assert RowValue(w, 0, e, v) == RowValue(w, 1, e, v);
    PosIs(s, 1, w, 0);
    forall q | 0 <= q < w
      ensures !v[q]
    {
      var t := PosReaches(s, 1, w, q);
      ModSmall(q, w);
      Constant(v, s, 1, w, 0, t);
    }
  }

  /** Any pair, if no number from 2 to its greater index divides w. */
  lemma PairTrivial(w: nat, a: nat, b: nat, v: seq<bool>)
    requires a < b < w && NoDivisorBelow(w, b + 1) && InPairKernel(w, a, b - a, v)
    ensures AllClear(v)
  {
    if w % 2 == 1 {
      PairKernelTrivial(w, a, b - a, v);
    } else {
      assert Divides(2, w);
      FirstPairTrivial(w, v);
    }
  }

  /** The condition: no device number from 2 to k - 1 divides w. */
  lemma BlocksGood(w: nat, k: nat)
    requires 0 < w && k <= w && NoDivisorBelow(w, k)
    ensures GoodBlocks(Blocks(w, k), w)
  {
    hide Product, ExtraRow, Block;
    forall j | 0 <= j < k
      ensures Invertible(Blocks(w, k)[j], w)
    {
      BlockInvertible(w, j);
    }
    forall i, j | 0 <= i < j < k
      ensures SumInvertible(Blocks(w, k)[i], Blocks(w, k)[j], w)
    {
      forall v | |v| == w && forall r :: 0 <= r < w ==> Product(Block(w, i)[r], v) == Product(Block(w, j)[r], v)
        ensures AllClear(v)
      {
        forall r: nat | r < w
          ensures RowValue(w, i, r, v) == RowValue(w, i + (j - i), r, v)
        {
          RowProduct(w, i, r, v);
          RowProduct(w, j, r, v);
        }
        PairTrivial(w, i, j, v);
      }
    }
  }

  /** If m divides w, blocks 0 and m agree on a whole residue class modulo m. */
  lemma DivisorSpoils(w: nat, k: nat, m: nat)
    requires 2 <= m < k <= w && Divides(m, w)
    ensures !GoodBlocks(Blocks(w, k), w)
  {
    hide Product, ExtraRow, Block;
    // a residue class modulo m that the extra one of block m does not touch
    var y := (ExtraRow(w, m) + m - 1) % w;
    var c := if y % m == 0 then 1 else 0;
    var v := seq(w, q => q % m == c);
    forall r: nat | r < w
      ensures Product(Block(w, 0)[r], v) == Product(Block(w, m)[r], v)
    {
      RowProduct(w, 0, r, v);
      RowProduct(w, m, r, v);
      ModSmall(r, w);
      ModOfMod(m + r, m, w);
      ModShift(r, 1, m);
    }
    ModSmall(c, m);
    assert v[c];
    assert Blocks(w, k)[0] == Block(w, 0) && Blocks(w, k)[m] == Block(w, m);
    assert !SumInvertible(Blocks(w, k)[0], Blocks(w, k)[m], w);
  }

  /** The blocks give a code that survives any two lost devices exactly if no number from 2 to k - 1
      divides w; for a prime w that is every k up to w. */
  lemma BlocksGoodIff(w: nat, k: nat)
    requires 0 < w && k <= w
    ensures Survives(Blocks(w, k), k, w) <==> NoDivisorBelow(w, k)
    ensures GoodBlocks(Blocks(w, k), w) <==> NoDivisorBelow(w, k)
    ensures IsPrime(w) ==> GoodBlocks(Blocks(w, k), w)
  {
    hide Survives, Blocks;
    SurvivesIffGood(Blocks(w, k), k, w);
    if NoDivisorBelow(w, k) {
      BlocksGood(w, k);
    } else {
      var m: nat :| 2 <= m <= k - 1 && Divides(m, w);
      DivisorSpoils(w, k, m);
    }
  }
}
