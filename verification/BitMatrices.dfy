/** The loops of liberation.c that fill a zeroed 2w x kw bit matrix, device P above device Q. */
module BitMatrices {
  import opened Indexing
  import opened BitCode
  import Liberation
  import BlaumRoth
  import Modular

  /** The index of row r, data device j, bit c. */
  function Cell(k: nat, w: nat, r: nat, j: nat, c: nat): nat {
    At(r, At(j, c, w), k * w)
  }

  datatype One = One(r: nat, j: nat, c: nat)

  /** The array is 1 at the marked cells and 0 elsewhere. */
  ghost predicate Marked(a: seq<int>, k: nat, w: nat, ones: set<One>) {
    |a| == (2 * w) * (k * w) &&
    forall r: nat, j: nat, c: nat :: r < 2 * w && j < k && c < w ==>
      Cell(k, w, r, j, c) < |a| && a[Cell(k, w, r, j, c)] == if One(r, j, c) in ones then 1 else 0
  }

  lemma CellInside(k: nat, w: nat, r: nat, j: nat, c: nat)
    requires r < 2 * w && j < k && c < w
    ensures Cell(k, w, r, j, c) < (2 * w) * (k * w)
  {
    Inside(j, c, k, w);
    Inside(r, At(j, c, w), 2 * w, k * w);
  }

  lemma CellUnique(k: nat, w: nat, r: nat, j: nat, c: nat, r': nat, j': nat, c': nat)
    requires j < k && c < w && j' < k && c' < w && Cell(k, w, r, j, c) == Cell(k, w, r', j', c')
    ensures r == r' && j == j' && c == c'
  {
    Inside(j, c, k, w);
    Inside(j', c', k, w);
    Unique(r, At(j, c, w), r', At(j', c', w), k * w);
    Unique(j, c, j', c', w);
  }

  /** How the running index moves. */
  lemma CellSteps(k: nat, w: nat, r: nat, j: nat, c: nat)
    ensures Cell(k, w, r, j + 1, c) == Cell(k, w, r, j, c) + w
    ensures Cell(k, w, r + 1, j, c) == Cell(k, w, r, j, c) + k * w
    ensures Cell(k, w, r, j, c) == Cell(k, w, r, j, 0) + c
    ensures Cell(k, w, w + r, j, c) == k * w * w + j * w + r * k * w + c
    ensures Cell(k, w, r, 0, c) == r * k * w + c
  {
    NextRow(j, c, w);
    NextRow(r, At(j, c, w), k * w);
    assert r * (k * w) == r * k * w;
    assert (w + r) * (k * w) == k * w * w + r * k * w by {
      assert (w + r) * (k * w) == w * (k * w) + r * (k * w);
      assert w * (k * w) == k * w * w;
    }
  }

  lemma MarkKeeps(a: seq<int>, k: nat, w: nat, ones: set<One>, r: nat, j: nat, c: nat)
    requires Marked(a, k, w, ones) && r < 2 * w && j < k && c < w
    ensures Cell(k, w, r, j, c) < |a|
    ensures Marked(a[Cell(k, w, r, j, c) := 1], k, w, ones + {One(r, j, c)})
  {
    hide Cell;
    CellInside(k, w, r, j, c);
    var a' := a[Cell(k, w, r, j, c) := 1];
    forall r': nat, j': nat, c': nat | r' < 2 * w && j' < k && c' < w
      ensures a'[Cell(k, w, r', j', c')] == if One(r', j', c') in ones + {One(r, j, c)} then 1 else 0
    {
      if Cell(k, w, r', j', c') == Cell(k, w, r, j, c) { CellUnique(k, w, r', j', c', r, j, c); }
    }
  }

  /** The blocks read back from rows top, ..., top + w - 1. */
  ghost function ReadBlocks(a: seq<int>, k: nat, w: nat, top: nat): (x: seq<seq<seq<bool>>>)
    requires top <= w && |a| == (2 * w) * (k * w)
    ensures AreBlocks(x, k, w)
  {
    forall r: nat, j: nat, c: nat | r < 2 * w && j < k && c < w ensures Cell(k, w, r, j, c) < |a| { CellInside(k, w, r, j, c); }
    seq(k, j requires 0 <= j < k =>
      seq(w, r requires 0 <= r < w => seq(w, c requires 0 <= c < w => a[Cell(k, w, top + r, j, c)] == 1)))
  }

  function Identity(w: nat): (x: seq<seq<bool>>)
    ensures IsBlock(x, w)
  {
    seq(w, r => seq(w, c => c == r))
  }

  function Identities(k: nat, w: nat): (x: seq<seq<seq<bool>>>)
    ensures AreBlocks(x, k, w)
  {
    seq(k, _ => Identity(w))
  }

  /** The array holds identity blocks for P and the given blocks for Q, in zeros and ones. */
  ghost predicate HoldsCode(a: seq<int>, k: nat, w: nat, blocks: seq<seq<seq<bool>>>) {
    |a| == (2 * w) * (k * w) && AreBlocks(blocks, k, w) &&
    (forall i :: 0 <= i < |a| ==> a[i] == 0 || a[i] == 1) &&
    ReadBlocks(a, k, w, 0) == Identities(k, w) && ReadBlocks(a, k, w, w) == blocks
  }

  lemma {:induction false} IdentityIsParity(k: nat, w: nat, d: seq<seq<bool>>, r: nat)
    requires IsData(d, k, w) && r < w
    ensures Shapes(Identities(k, w), d, r) && CodeBit(Identities(k, w), d, r) == ParityBit(d, r)
  {
    hide Product;
    if k > 0 {
      assert Identities(k, w)[1..] == Identities(k - 1, w);
      IdentityIsParity(k - 1, w, d[1..], r);
      ProductOne(Identity(w)[r], d[0], r);
    }
  }

  /** Bit r of coding device q (0 for P, 1 for Q), from the rows of the array. */
  ghost predicate CodingBit(a: seq<int>, k: nat, w: nat, q: nat, d: seq<seq<bool>>, r: nat)
    requires q < 2 && |a| == (2 * w) * (k * w) && IsData(d, k, w) && r < w
  {
    CodeBit(ReadBlocks(a, k, w, q * w), d, r)
  }

  /** A bit matrix with good blocks recovers the data from any k of its k + 2 devices. */
  lemma MatrixSurvives(a: seq<int>, k: nat, w: nat, blocks: seq<seq<seq<bool>>>,
      d: seq<seq<bool>>, e: seq<seq<bool>>, lost1: nat, lost2: nat)
    requires HoldsCode(a, k, w, blocks) && GoodBlocks(blocks, w) && IsData(d, k, w) && IsData(e, k, w)
    requires forall j: nat :: j < k && j != lost1 && j != lost2 ==> d[j] == e[j]
    requires forall q: nat, r: nat :: q < 2 && k + q != lost1 && k + q != lost2 && r < w ==>
      CodingBit(a, k, w, q, d, r) == CodingBit(a, k, w, q, e, r)
    ensures d == e
  {
    hide Product, Cell, CodeBit, ParityBit, Identities;
    forall id: nat | id < k + 2 && id != lost1 && id != lost2
      ensures SameDevice(blocks, d, e, k, w, id)
    {
      if id >= k {
        var q: nat := id - k;
        forall r: nat | r < w
          ensures q == 0 ==> ParityBit(d, r) == ParityBit(e, r)
          ensures q == 1 ==> Shapes(blocks, d, r) && Shapes(blocks, e, r) && CodeBit(blocks, d, r) == CodeBit(blocks, e, r)
        {
          assert CodingBit(a, k, w, q, d, r) == CodingBit(a, k, w, q, e, r);
          IdentityIsParity(k, w, d, r);
          IdentityIsParity(k, w, e, r);
        }
      }
    }
    SurvivesTwoLosses(blocks, d, e, k, w, lost1, lost2);
  }

  /** The coding devices that are not lost hold the same. */
  ghost predicate SameCoding(a: seq<int>, k: nat, w: nat, d: seq<seq<bool>>, e: seq<seq<bool>>, lost1: nat, lost2: nat)
    requires |a| == (2 * w) * (k * w) && IsData(d, k, w) && IsData(e, k, w)
  {
    forall q: nat, r: nat :: q < 2 && k + q != lost1 && k + q != lost2 && r < w ==>
      CodingBit(a, k, w, q, d, r) == CodingBit(a, k, w, q, e, r)
  }

  /** All devices that are not lost hold the same. */
  ghost predicate SameRest(a: seq<int>, k: nat, w: nat, d: seq<seq<bool>>, e: seq<seq<bool>>, lost1: nat, lost2: nat)
    requires |a| == (2 * w) * (k * w) && IsData(d, k, w) && IsData(e, k, w)
  {
    (forall j: nat :: j < k && j != lost1 && j != lost2 ==> d[j] == e[j]) && SameCoding(a, k, w, d, e, lost1, lost2)
  }

  /** Any k of the k + 2 devices determine the data. */
  ghost predicate Recovers(a: seq<int>, k: nat, w: nat)
    requires |a| == (2 * w) * (k * w)
  {
    forall d, e, lost1: nat, lost2: nat ::
      IsData(d, k, w) && IsData(e, k, w) && SameRest(a, k, w, d, e, lost1, lost2) ==> d == e
  }

  /** Devices that look alike to the blocks look alike to the array. */
  lemma SameInArray(a: seq<int>, k: nat, w: nat, blocks: seq<seq<seq<bool>>>,
      d: seq<seq<bool>>, e: seq<seq<bool>>, lost1: nat, lost2: nat)
    requires HoldsCode(a, k, w, blocks) && IsData(d, k, w) && IsData(e, k, w)
    requires SameBut(blocks, d, e, k, w, lost1, lost2)
    ensures SameCoding(a, k, w, d, e, lost1, lost2)
  {
    hide Product, Cell, CodeBit, ParityBit, Identities;
    forall q: nat, r: nat | q < 2 && k + q != lost1 && k + q != lost2 && r < w
      ensures CodingBit(a, k, w, q, d, r) == CodingBit(a, k, w, q, e, r)
    {
      assert SameDevice(blocks, d, e, k, w, k + q);
      IdentityIsParity(k, w, d, r);
      IdentityIsParity(k, w, e, r);
    }
  }

  /** The bit matrix recovers the data exactly if its blocks are good. */
  lemma RecoversIff(a: seq<int>, k: nat, w: nat, blocks: seq<seq<seq<bool>>>)
    requires HoldsCode(a, k, w, blocks)
    ensures Recovers(a, k, w) <==> GoodBlocks(blocks, w)
  {
    hide CodingBit, SameDevice, Invertible, SumInvertible;
    SurvivesIffGood(blocks, k, w);
    if GoodBlocks(blocks, w) {
      forall d, e, lost1: nat, lost2: nat |
        IsData(d, k, w) && IsData(e, k, w) && SameRest(a, k, w, d, e, lost1, lost2)
        ensures d == e
      {
        MatrixSurvives(a, k, w, blocks, d, e, lost1, lost2);
      }
    } else {
      var d, e, lost1: nat, lost2: nat :|
        IsData(d, k, w) && IsData(e, k, w) && SameBut(blocks, d, e, k, w, lost1, lost2) && d != e;
      SameInArray(a, k, w, blocks, d, e, lost1, lost2);
      forall j: nat | j < k && j != lost1 && j != lost2
        ensures d[j] == e[j]
      {
        SameData(blocks, d, e, k, w, j);
      }
      assert SameRest(a, k, w, d, e, lost1, lost2);
    }
  }

  lemma SameData(blocks: seq<seq<seq<bool>>>, d: seq<seq<bool>>, e: seq<seq<bool>>, k: nat, w: nat, j: nat)
    requires IsData(d, k, w) && IsData(e, k, w) && AreBlocks(blocks, k, w) && j < k && SameDevice(blocks, d, e, k, w, j)
    ensures d[j] == e[j]
  {}

  // ---------- filling the array ----------

  /** The marked cells are exactly those of the identities and of the blocks. */
  ghost predicate MarksCode(ones: set<One>, k: nat, w: nat, blocks: seq<seq<seq<bool>>>)
    requires AreBlocks(blocks, k, w)
  {
    forall r: nat, j: nat, c: nat :: r < w && j < k && c < w ==>
      (One(r, j, c) in ones <==> c == r) && (One(w + r, j, c) in ones <==> blocks[j][r][c])
  }

  lemma MarkedHolds(a: seq<int>, k: nat, w: nat, ones: set<One>, blocks: seq<seq<seq<bool>>>)
    requires AreBlocks(blocks, k, w) && Marked(a, k, w, ones) && MarksCode(ones, k, w, blocks)
    requires forall i :: 0 <= i < |a| ==> a[i] == 0 || a[i] == 1
    ensures HoldsCode(a, k, w, blocks)
  {
    hide Cell;
    var top, bottom := ReadBlocks(a, k, w, 0), ReadBlocks(a, k, w, w);
    forall j | 0 <= j < k
      ensures top[j] == Identity(w) && bottom[j] == blocks[j]
    {
      forall r | 0 <= r < w
        ensures top[j][r] == Identity(w)[r] && bottom[j][r] == blocks[j][r]
      {
      }
    }
  }

  ghost predicate Bits(a: seq<int>) {
    forall i :: 0 <= i < |a| ==> a[i] == 0 || a[i] == 1
  }

  /** Sets one cell of the array to 1. */
  method Mark(matrix: array<int>, k: nat, w: nat, index: nat, ghost r: nat, ghost j: nat, ghost c: nat, ghost before: set<One>)
    returns (ghost ones: set<One>)
    requires Marked(matrix[..], k, w, before) && Bits(matrix[..])
    requires r < 2 * w && j < k && c < w && index == Cell(k, w, r, j, c)
    modifies matrix
    ensures ones == before + {One(r, j, c)} && Marked(matrix[..], k, w, ones) && Bits(matrix[..])
  {
    hide Cell;
    MarkKeeps(matrix[..], k, w, before, r, j, c);
    ghost var was := matrix[..];
    matrix[index] := 1;
    assert matrix[..] == was[Cell(k, w, r, j, c) := 1];
    ones := before + {One(r, j, c)};
  }

  lemma {:induction false} MarkedNone(a: seq<int>, k: nat, w: nat)
    requires |a| == (2 * w) * (k * w) && forall i :: 0 <= i < |a| ==> a[i] == 0
    ensures Marked(a, k, w, {}) && Bits(a)
  {
    hide Cell;
    forall r: nat, j: nat, c: nat | r < 2 * w && j < k && c < w
      ensures Cell(k, w, r, j, c) < |a|
    {
      CellInside(k, w, r, j, c);
    }
  }

  /** The memset and the identity loops. */
  method IdentityRows(k: nat, w: nat) returns (matrix: array<int>, ghost ones: set<One>)
    ensures fresh(matrix) && Marked(matrix[..], k, w, ones) && Bits(matrix[..])
    ensures forall r: nat, j: nat, c: nat :: j < k && c < w ==> (One(r, j, c) in ones <==> r < w && c == r)
  {
    hide Cell, Marked, Bits;
    matrix := new int[(2 * w) * (k * w)];
    for i := 0 to matrix.Length
      invariant forall l :: 0 <= l < i ==> matrix[l] == 0
    {
      matrix[i] := 0;
    }
    ones := {};
    MarkedNone(matrix[..], k, w);
    for i := 0 to w
      invariant Marked(matrix[..], k, w, ones) && Bits(matrix[..])
      invariant forall r: nat, j: nat, c: nat :: j < k && c < w ==> (One(r, j, c) in ones <==> r < i && c == r)
    {
      CellSteps(k, w, i, 0, i);
      var index := i * k * w + i;
      for j := 0 to k
        invariant index == Cell(k, w, i, j, i) && Marked(matrix[..], k, w, ones) && Bits(matrix[..])
        invariant forall r: nat, j': nat, c: nat :: j' < k && c < w ==>
          (One(r, j', c) in ones <==> (r < i && c == r) || (r == i && j' < j && c == r))
      {
        CellSteps(k, w, i, j, i);
        ones := Mark(matrix, k, w, index, i, j, i, ones);
        index := index + w;
      }
    }
  }

  /** Block j of Q for one code, once its cells are marked on top of the ones before. */
  ghost predicate AddsBlock(before: set<One>, ones: set<One>, k: nat, w: nat, j: nat, block: seq<seq<bool>>)
    requires IsBlock(block, w)
  {
    forall r: nat, j': nat, c: nat :: r < 2 * w && j' < k && c < w ==>
      (One(r, j', c) in ones <==> One(r, j', c) in before || (j' == j && r >= w && block[r - w][c]))
  }

  /** Pass j of the Liberation loop. */
  method LiberationBlock(matrix: array<int>, k: nat, w: nat, j: nat, ghost before: set<One>) returns (ghost ones: set<One>)
    requires 0 < w && j < k && Marked(matrix[..], k, w, before) && Bits(matrix[..])
    modifies matrix
    ensures Marked(matrix[..], k, w, ones) && Bits(matrix[..])
    ensures AddsBlock(before, ones, k, w, j, Liberation.Block(w, j))
  {
    hide Cell, Marked;
    ones := before;
    CellSteps(k, w, 0, j, 0);
    var index := k * w * w + j * w;
    for i := 0 to w
      invariant index == Cell(k, w, w + i, j, 0) && Marked(matrix[..], k, w, ones) && Bits(matrix[..])
      invariant forall r: nat, j': nat, c: nat :: r < 2 * w && j' < k && c < w ==>
        (One(r, j', c) in ones <==> One(r, j', c) in before || (j' == j && w <= r < w + i && c == (j + (r - w)) % w))
    {
      CellSteps(k, w, w + i, j, (j + i) % w);
      CellSteps(k, w, w + i, j, 0);
      ones := Mark(matrix, k, w, index + (j + i) % w, w + i, j, (j + i) % w, ones);
      index := index + k * w;
    }
    if j > 0 {
      var i := (j * ((w - 1) / 2)) % w;
      CellSteps(k, w, i, j, (i + j - 1) % w);
      ones := Mark(matrix, k, w, k * w * w + j * w + i * k * w + (i + j - 1) % w, w + i, j, (i + j - 1) % w, ones);
    }
  }

  /** liberation_coding_bitmatrix; null when there are more data devices than bits. */
  method LiberationCodingBitmatrix(k: nat, w: nat) returns (matrix: array?<int>)
    requires w > 0
    ensures matrix == null <==> k > w
    ensures matrix != null ==> fresh(matrix) && HoldsCode(matrix[..], k, w, Liberation.Blocks(w, k))
    ensures matrix != null ==> forall i: nat, j: nat, c: nat :: i < w && j < k && c < w ==> (
      Cell(k, w, i, j, c) < matrix.Length && matrix[Cell(k, w, i, j, c)] == if c == i then 1 else 0)
    ensures matrix != null ==> forall r: nat, j: nat, c: nat :: w <= r < 2 * w && j < k && c < w ==> (
      Cell(k, w, r, j, c) < matrix.Length &&
      matrix[Cell(k, w, r, j, c)] ==
      if c == (j + (r - w)) % w || (j > 0 && r - w == (j * ((w - 1) / 2)) % w && c == (r - w + j - 1) % w) then 1 else 0)
    ensures matrix != null ==> (Recovers(matrix[..], k, w) <==> Modular.NoDivisorBelow(w, k))
  {
    hide Cell, Marked, Recovers;
    if k > w { return null; }
    ghost var ones;
    matrix, ones := IdentityRows(k, w);
    for j := 0 to k
      invariant Marked(matrix[..], k, w, ones) && Bits(matrix[..])
      invariant forall r: nat, j': nat, c: nat :: r < 2 * w && j' < k && c < w ==>
        (One(r, j', c) in ones <==> if r < w then c == r else j' < j && Liberation.Block(w, j')[r - w][c])
    {
      ones := LiberationBlock(matrix, k, w, j, ones);
    }
    MarkedHolds(matrix[..], k, w, ones, Liberation.Blocks(w, k));
    LiberationRecoversIff(matrix[..], k, w);
    MarkedCells(matrix[..], k, w, ones);
  }

  lemma MarkedCells(a: seq<int>, k: nat, w: nat, ones: set<One>)
    requires Marked(a, k, w, ones)
    ensures forall r: nat, j: nat, c: nat :: r < 2 * w && j < k && c < w ==>
      (Cell(k, w, r, j, c) < |a| && a[Cell(k, w, r, j, c)] == if One(r, j, c) in ones then 1 else 0)
  {}

  /** Row l, counted from 1, of block j > 0 of the Blaum-Roth code. */
  method BlaumRothRow(matrix: array<int>, k: nat, w: nat, j: nat, l: nat, index: nat, ghost before: set<One>)
    returns (ghost ones: set<One>)
    requires 0 < j < k <= w && 1 <= l <= w && index == Cell(k, w, w + (l - 1), j, 0)
    requires Marked(matrix[..], k, w, before) && Bits(matrix[..])
    modifies matrix
    ensures Marked(matrix[..], k, w, ones) && Bits(matrix[..])
    ensures forall r: nat, j': nat, c: nat :: c < w ==>
      (One(r, j', c) in ones <==> One(r, j', c) in before || (r == w + (l - 1) && j' == j && BlaumRoth.BlockCell(w, j, l - 1, c)))
  {
    hide Cell, Marked, Bits, BlaumRoth.Half;
    var p, i, row := w + 1, j, w + (l - 1);
    if l != p - i {
      var m := l + i;
      if m >= p { m := m - p; }
      m := m - 1;
      CellSteps(k, w, row, j, m);
      ones := Mark(matrix, k, w, index + m, row, j, m, before);
    } else {
      CellSteps(k, w, row, j, i - 1);
      ones := Mark(matrix, k, w, index + i - 1, row, j, i - 1, before);
      var m := HalfOf(p, i);
      BlaumRoth.HalfInRange(p, i);
      m := m - 1;
      CellSteps(k, w, row, j, m);
      ones := Mark(matrix, k, w, index + m, row, j, m, ones);
    }
  }

  /** Pass j of the Blaum-Roth loop. */
  method BlaumRothBlock(matrix: array<int>, k: nat, w: nat, j: nat, ghost before: set<One>) returns (ghost ones: set<One>)
    requires j < k <= w && Marked(matrix[..], k, w, before) && Bits(matrix[..])
    modifies matrix
    ensures Marked(matrix[..], k, w, ones) && Bits(matrix[..])
    ensures AddsBlock(before, ones, k, w, j, BlaumRoth.Block(w, j))
  {
    hide Cell, Marked, BlaumRoth.Half, BlaumRoth.Cell;
    ones := before;
    CellSteps(k, w, 0, j, 0);
    var index := k * w * w + j * w;
    if j == 0 {
      for l := 0 to w
        invariant index == Cell(k, w, w + l, j, 0) && Marked(matrix[..], k, w, ones) && Bits(matrix[..])
        invariant forall r: nat, j': nat, c: nat :: r < 2 * w && j' < k && c < w ==>
          (One(r, j', c) in ones <==> One(r, j', c) in before || (j' == j && w <= r < w + l && c == r - w))
      {
        CellSteps(k, w, w + l, j, l);
        CellSteps(k, w, w + l, j, 0);
        ones := Mark(matrix, k, w, index + l, w + l, j, l, ones);
        index := index + k * w;
      }
      FirstBlock(w);
    } else {
      for l := 1 to w + 1
        invariant index == Cell(k, w, w + (l - 1), j, 0) && Marked(matrix[..], k, w, ones) && Bits(matrix[..])
        invariant forall r: nat, j': nat, c: nat :: r < 2 * w && j' < k && c < w ==>
          (One(r, j', c) in ones <==>
            (One(r, j', c) in before || (j' == j && w <= r < w + (l - 1) && BlaumRoth.BlockCell(w, j, r - w, c))))
      {
        CellSteps(k, w, w + (l - 1), j, 0);
        ones := BlaumRothRow(matrix, k, w, j, l, index, ones);
        index := index + k * w;
      }
    }
  }

  lemma FirstBlock(w: nat)
    ensures forall r: nat, c: nat :: r < w && c < w ==> (BlaumRoth.BlockCell(w, 0, r, c) <==> c == r)
  {}

  method HalfOf(p: nat, i: nat) returns (m: nat)
    ensures m == BlaumRoth.Half(p, i)
  {
    if i % 2 == 0 {
      m := i / 2;
    } else {
      m := (p / 2) + 1 + (i / 2);
    }
  }

  /** blaum_roth_coding_bitmatrix */
  method BlaumRothCodingBitmatrix(k: nat, w: nat) returns (matrix: array?<int>)
    ensures matrix == null <==> k > w
    ensures matrix != null ==> fresh(matrix) && HoldsCode(matrix[..], k, w, BlaumRoth.Blocks(w, k))
    ensures matrix != null ==> forall i: nat, j: nat, c: nat :: i < w && j < k && c < w ==> (
      Cell(k, w, i, j, c) < matrix.Length && matrix[Cell(k, w, i, j, c)] == if c == i then 1 else 0)
    ensures matrix != null ==> forall r: nat, j: nat, c: nat :: w <= r < 2 * w && j < k && c < w ==> (
      Cell(k, w, r, j, c) < matrix.Length && matrix[Cell(k, w, r, j, c)] ==
      if (if r - w + j == w then c + 1 == j || c + 1 == (if j % 2 == 0 then j / 2 else (w + 1) / 2 + 1 + j / 2)
      else c + 1 == (r - w + 1 + j) % (w + 1)) then 1 else 0)
    ensures matrix != null ==> (Recovers(matrix[..], k, w) <==> Modular.NoDivisorBelow(w + 1, k))
  {
    hide Cell, Marked, Recovers;
    if k > w { return null; }
    ghost var ones;
    matrix, ones := IdentityRows(k, w);
    for j := 0 to k
      invariant Marked(matrix[..], k, w, ones) && Bits(matrix[..])
      invariant forall r: nat, j': nat, c: nat :: r < 2 * w && j' < k && c < w ==>
        (One(r, j', c) in ones <==> if r < w then c == r else j' < j && BlaumRoth.Block(w, j')[r - w][c])
    {
      ones := BlaumRothBlock(matrix, k, w, j, ones);
    }
    MarkedHolds(matrix[..], k, w, ones, BlaumRoth.Blocks(w, k));
    BlaumRothRecoversIff(matrix[..], k, w);
    MarkedCells(matrix[..], k, w, ones);
    forall i: nat, j: nat, c: nat | i < w && j < k && c < w
      ensures BlaumRoth.Block(w, j)[i][c] <==>
        if i + 1 + j == w + 1 then c + 1 == j || c + 1 == (if j % 2 == 0 then j / 2 else (w + 1) / 2 + 1 + j / 2)
        else c + 1 == (i + 1 + j) % (w + 1)
    {
      BlaumRoth.CellAt(w, j, i, c);
    }
  }

  // ---------- the two codes ----------

  /** The Liberation bit matrix for a prime w recovers the data from any k of k + 2 devices. */
  lemma LiberationSurvives(a: seq<int>, k: nat, w: nat, d: seq<seq<bool>>, e: seq<seq<bool>>, lost1: nat, lost2: nat)
    requires Modular.IsPrime(w) && k <= w && HoldsCode(a, k, w, Liberation.Blocks(w, k))
    requires IsData(d, k, w) && IsData(e, k, w)
    requires forall j: nat :: j < k && j != lost1 && j != lost2 ==> d[j] == e[j]
    requires forall q: nat, r: nat :: q < 2 && k + q != lost1 && k + q != lost2 && r < w ==>
      CodingBit(a, k, w, q, d, r) == CodingBit(a, k, w, q, e, r)
    ensures d == e
  {
    Liberation.BlocksGoodIff(w, k);
    MatrixSurvives(a, k, w, Liberation.Blocks(w, k), d, e, lost1, lost2);
  }

  /** The Blaum-Roth bit matrix for w + 1 a prime does the same. */
  lemma BlaumRothSurvives(a: seq<int>, k: nat, w: nat, d: seq<seq<bool>>, e: seq<seq<bool>>, lost1: nat, lost2: nat)
    requires Modular.IsPrime(w + 1) && k <= w && HoldsCode(a, k, w, BlaumRoth.Blocks(w, k))
    requires IsData(d, k, w) && IsData(e, k, w)
    requires forall j: nat :: j < k && j != lost1 && j != lost2 ==> d[j] == e[j]
    requires forall q: nat, r: nat :: q < 2 && k + q != lost1 && k + q != lost2 && r < w ==>
      CodingBit(a, k, w, q, d, r) == CodingBit(a, k, w, q, e, r)
    ensures d == e
  {
    BlaumRoth.BlocksGoodIff(w, k);
    MatrixSurvives(a, k, w, BlaumRoth.Blocks(w, k), d, e, lost1, lost2);
  }

  /** The Liberation bit matrix recovers exactly if no number from 2 to k - 1 divides w. */
  lemma LiberationRecoversIff(a: seq<int>, k: nat, w: nat)
    requires 0 < w && k <= w && HoldsCode(a, k, w, Liberation.Blocks(w, k))
    ensures Recovers(a, k, w) <==> Modular.NoDivisorBelow(w, k)
  {
    hide Recovers, GoodBlocks;
    Liberation.BlocksGoodIff(w, k);
    RecoversIff(a, k, w, Liberation.Blocks(w, k));
  }

  /** The Blaum-Roth bit matrix recovers exactly if no number from 2 to k - 1 divides w + 1. */
  lemma BlaumRothRecoversIff(a: seq<int>, k: nat, w: nat)
    requires k <= w && HoldsCode(a, k, w, BlaumRoth.Blocks(w, k))
    ensures Recovers(a, k, w) <==> Modular.NoDivisorBelow(w + 1, k)
  {
    hide Recovers, GoodBlocks;
    BlaumRoth.BlocksGoodIff(w, k);
    RecoversIff(a, k, w, BlaumRoth.Blocks(w, k));
  }
}
