/** reed_sol_r6_encode and the region doublings, on regions of 32-bit words. */
module Raid6Encode {
  import opened Words
  import opened GaloisField
  import opened Lanes
  import opened PackedDouble
  import opened Raid6
  import opened Vectors
  import opened PrimitiveElement
  import BitMatrixOnes

  /** galois_region_xor; r3 may be r1 or r2. */
  method RegionXor(r1: array<nat>, r2: array<nat>, r3: array<nat>)
    requires r1.Length == r2.Length == r3.Length
    modifies r3
    ensures forall i :: 0 <= i < r3.Length ==> r3[i] == Xor(old(r1[i]), old(r2[i]))
  {
    hide Xor;
    var l := 0;
    while l < r1.Length
      invariant 0 <= l <= r1.Length
      invariant forall i :: 0 <= i < l ==> r3[i] == Xor(old(r1[i]), old(r2[i]))
      invariant forall i :: l <= i < r1.Length ==> r1[i] == old(r1[i]) && r2[i] == old(r2[i])
    {
      r3[l] := Xor(r1[l], r2[l]);
      l := l + 1;
    }
  }

  method Copy(dst: array<nat>, src: array<nat>)
    requires dst.Length == src.Length && dst != src
    modifies dst
    ensures dst[..] == src[..]
  {
    for i := 0 to dst.Length
      invariant dst[..i] == src[..i]
    {
      dst[i] := src[i];
    }
  }

  // ---------- the static masks ----------

  lemma {:induction false} OrSum(a: nat, b: nat, n: nat)
    requires a < Pow2(n)
    ensures Or(a, Pow2(n) * b) == a + Pow2(n) * b
  {
    hide Or;
    assert Pow2(n) * 0 == 0;
    CatValue(a, 0, n);
    CatValue(0, b, n);
    CatValue(a, b, n);
    CatOr(a, b, n);
  }

  /** The loop that copies a byte into all four bytes of a word, until the shift has pushed it out. */
  method SpreadByte(t0: nat) returns (acc: nat)
    requires t0 < 0x100
    ensures acc == Pack4(t0, t0, t0, t0)
  {
    hide Or, Pow2, Pack4;
    Pow2Values();
    Pack4Value(t0, t0, t0, t0);
    OrSum(0, t0, 8);
    OrSum(t0, t0, 8);
    OrSum(t0 + 0x100 * t0, t0, 16);
    OrSum(t0 + 0x100 * t0 + 0x1_0000 * t0, t0, 24);
    OrZero(t0);
    var tmp := t0;
    acc := 0;
    ghost var n := 0;
    while tmp != 0
      invariant 0 <= n <= 4
      invariant tmp == if n == 0 then t0 else if n == 1 then 0x100 * t0 else if n == 2 then 0x1_0000 * t0 else if n == 3 then 0x100_0000 * t0 else 0
      invariant acc == if n == 0 then 0 else if n == 1 then t0 else if n == 2 then t0 + 0x100 * t0
        else if n == 3 then t0 + 0x100 * t0 + 0x1_0000 * t0 else t0 + 0x100 * t0 + 0x1_0000 * t0 + 0x100_0000 * t0
      decreases 4 - n
    {
      acc := Or(acc, tmp);
      tmp := (0x100 * tmp) % W32;
      n := n + 1;
    }
  }

  method SpreadHalf(t0: nat) returns (acc: nat)
    requires t0 < 0x1_0000
    ensures acc == Pack2(t0, t0)
  {
    hide Or, Pow2, Pack2;
    Pow2Values();
    Pack2Value(t0, t0);
    OrSum(t0, t0, 16);
    OrZero(t0);
    var tmp := t0;
    acc := 0;
    ghost var n := 0;
    while tmp != 0
      invariant 0 <= n <= 2
      invariant tmp == if n == 0 then t0 else if n == 1 then 0x1_0000 * t0 else 0
      invariant acc == if n == 0 then 0 else if n == 1 then t0 else t0 + 0x1_0000 * t0
      decreases 2 - n
    {
      acc := Or(acc, tmp);
      tmp := (0x1_0000 * tmp) % W32;
      n := n + 1;
    }
  }

  /** The top bit times 2 is the folded polynomial. */
  lemma {:induction false} TopTimesTwoIsPoly(f: Field)
    requires f.Valid() && f.w >= 2
    ensures f.Has(2) && f.Has(Pow2(f.w - 1)) && Mul(f, Pow2(f.w - 1), 2) == Low(f.poly, f.w)
  {
    var h := Pow2(f.w - 1);
    BitMatrixOnes.TopTimesTwo(f);
    BitPow2(f.w - 1, f.w - 1);
    assert 2 * h == Pow2(f.w);
    LowXor(Pow2(f.w), f.poly, f.w);
    LowPow2(f.w);
    XorZero(Low(f.poly, f.w));
  }

  const UNSET: nat := 0xffff_ffff

  /** The static variables prim, mask_1 and mask_2 of one region doubling. */
  class Doubler {
    const f: Field
    var prim: nat
    var mask1: nat
    var mask2: nat

    ghost predicate Valid()
      reads this
    {
      f.Valid() && (f.w == 8 || f.w == 16 || f.w == 32) &&
      (prim == UNSET || (
        prim == PrimWord(Low(f.poly, f.w), f.w) &&
        (f.w == 8 ==> mask1 == 0xfefe_fefe && mask2 == 0x8080_8080) &&
        (f.w == 16 ==> mask1 == 0xfffe_fffe && mask2 == 0x8000_8000)))
    }

    constructor (f: Field)
      requires f.Valid() && (f.w == 8 || f.w == 16 || f.w == 32)
      ensures Valid() && this.f == f
    {
      this.f := f;
      prim, mask1, mask2 := UNSET, UNSET, UNSET;
    }

    /** Sets the statics; prim keeps the value UNSET if that is what the polynomial spreads to. */
    method Prepare()
      requires Valid()
      modifies this
      ensures Valid() && prim == PrimWord(Low(f.poly, f.w), f.w)
      ensures f.w == 8 ==> mask1 == 0xfefe_fefe && mask2 == 0x8080_8080
      ensures f.w == 16 ==> mask1 == 0xfffe_fffe && mask2 == 0x8000_8000
    {
      hide Mul, Low, Pow2, Pack4, Pack2;
      if prim == UNSET {
        Pow2Values();
        TopTimesTwoIsPoly(f);
        var tmp := Mul(f, Pow2(f.w - 1), 2);
        if f.w == 8 {
          Pack4Value(254, 254, 254, 254);
          Pack4Value(128, 128, 128, 128);
          prim := SpreadByte(tmp);
          mask1 := SpreadByte(0x100 - 2);
          mask2 := SpreadByte(0x80);
        } else if f.w == 16 {
          Pack2Value(0xfffe, 0xfffe);
          Pack2Value(0x8000, 0x8000);
          prim := SpreadHalf(tmp);
          mask1 := SpreadHalf(0x1_0000 - 2);
          mask2 := SpreadHalf(0x8000);
        } else {
          prim := tmp;
        }
      }
    }

    /** reed_sol_galois_wXX_region_multby_2 */
    method RegionMultBy2(region: array<nat>)
      requires Valid()
      modifies this, region
      ensures Valid()
      ensures forall i :: 0 <= i < region.Length ==> region[i] == DoubleWord(old(region[i]), Low(f.poly, f.w), f.w)
    {
      hide Low, And, Xor, Pow2, Pack4, Pack2, Shl1, Minus, Bit;
      Prepare();
      var l1 := 0;
      while l1 < region.Length
        invariant 0 <= l1 <= region.Length && Valid()
        invariant prim == PrimWord(Low(f.poly, f.w), f.w)
        invariant f.w == 8 ==> mask1 == 0xfefe_fefe && mask2 == 0x8080_8080
        invariant f.w == 16 ==> mask1 == 0xfffe_fffe && mask2 == 0x8000_8000
        invariant forall i :: 0 <= i < l1 ==> region[i] == DoubleWord(old(region[i]), Low(f.poly, f.w), f.w)
        invariant forall i :: l1 <= i < region.Length ==> region[i] == old(region[i])
      {
        var x := region[l1];
        if f.w == 32 {
          region[l1] := Xor(Shl1(x), if Bit(x, 31) then prim else 0);
        } else {
          var tmp := And(Shl1(x), mask1);
          var tmp2 := And(x, mask2);
          tmp2 := Minus(Shl1(tmp2), tmp2 / (if f.w == 8 then 0x80 else 0x8000));
          region[l1] := Xor(tmp, And(tmp2, prim));
        }
        l1 := l1 + 1;
      }
    }
  }

  // ---------- the encoder ----------

  /** Word x of every data region. */
  ghost function Column(data: seq<array<nat>>, x: nat): (s: seq<nat>)
    requires forall j :: 0 <= j < |data| ==> x < data[j].Length
    reads data
    ensures |s| == |data|
  {
    seq(|data|, j requires 0 <= j < |data| reads data => data[j][x])
  }

  ghost predicate Regions(data: seq<array<nat>>, c0: array<nat>, c1: array<nat>) {
    |data| > 0 && c0 != c1 && c0.Length == c1.Length &&
    forall j :: 0 <= j < |data| ==> data[j].Length == c0.Length && data[j] != c0 && data[j] != c1
  }

  predicate Supported(w: nat) { w == 8 || w == 16 || w == 32 }

  /** The three sets of statics, one for each word size. */
  datatype Statics = Statics(d8: Doubler, d16: Doubler, d32: Doubler) {
    ghost predicate Valid()
      reads d8, d16, d32
    {
      d8.Valid() && d16.Valid() && d32.Valid() && d8.f.w == 8 && d16.f.w == 16 && d32.f.w == 32
    }

    /** The field of word size w. */
    ghost function Of(w: nat): Field {
      if w == 8 then d8.f else if w == 16 then d16.f else d32.f
    }

    ghost function Poly(w: nat): nat {
      if w == 8 then Low(d8.f.poly, 8) else if w == 16 then Low(d16.f.poly, 16) else Low(d32.f.poly, 32)
    }
  }

  /** The switch on w and the xor that follows it; false is `return 0`. */
  method HornerStep(w: nat, s: Statics, d: array<nat>, c1: array<nat>) returns (ok: bool)
    requires s.Valid() && d != c1 && d.Length == c1.Length
    modifies c1, s.d8, s.d16, s.d32
    ensures s.Valid() && ok == Supported(w) && (!ok ==> c1[..] == old(c1[..]))
    ensures ok ==> forall x :: 0 <= x < c1.Length ==> c1[x] == Xor(DoubleWord(old(c1[x]), s.Poly(w), w), d[x])
  {
    hide Low, Xor, DoubleWord;
    if w == 8 {
      s.d8.RegionMultBy2(c1);
    } else if w == 16 {
      s.d16.RegionMultBy2(c1);
    } else if w == 32 {
      s.d32.RegionMultBy2(c1);
    } else {
      return false;
    }
    RegionXor(c1, d, c1);
    ok := true;
  }

  /** The Horner loop for coding region 1. */
  method HornerRegions(w: nat, s: Statics, data: seq<array<nat>>, c0: array<nat>, c1: array<nat>) returns (ok: bool)
    requires Regions(data, c0, c1) && s.Valid()
    modifies c1, s.d8, s.d16, s.d32
    ensures s.Valid() && (ok <==> |data| == 1 || Supported(w))
    ensures ok ==> forall x: nat :: x < c1.Length ==> c1[x] == HornerWord(Column(data, x), s.Poly(w), w)
    ensures !ok ==> c1[..] == data[|data| - 1][..]
  {
    hide Low, Xor, DoubleWord;
    var k := |data|;
    Copy(c1, data[k - 1]);
    forall x: nat | x < c1.Length
      ensures c1[x] == HornerWord(Column(data, x)[k - 1..], s.Poly(w), w)
    {
      assert c1[..][x] == data[k - 1][..][x];
    }
    var i := k - 2;
    while i >= 0
      invariant -1 <= i <= k - 2 && s.Valid() && (i < k - 2 ==> Supported(w))
      invariant i == k - 2 ==> c1[..] == data[k - 1][..]
      invariant forall x: nat :: x < c1.Length ==> c1[x] == HornerWord(Column(data, x)[i + 1..], s.Poly(w), w)
    {
      ghost var before := c1[..];
      ok := HornerStep(w, s, data[i], c1);
      if !ok { return; }
      forall x: nat | x < c1.Length
        ensures c1[x] == HornerWord(Column(data, x)[i..], s.Poly(w), w)
      {
        assert before[x] == HornerWord(Column(data, x)[i + 1..], s.Poly(w), w);
        assert Column(data, x)[i..][1..] == Column(data, x)[i + 1..];
      }
      i := i - 1;
    }
    forall x: nat | x < c1.Length
      ensures c1[x] == HornerWord(Column(data, x), s.Poly(w), w)
    {
      assert Column(data, x)[0..] == Column(data, x);
    }
    ok := true;
  }

  /** reed_sol_r6_encode; false (0) for a word size other than 8, 16 and 32, which is only looked at
      when there are at least two data regions. */
  method R6Encode(w: nat, s: Statics, data: seq<array<nat>>, c0: array<nat>, c1: array<nat>) returns (ok: bool)
    requires Regions(data, c0, c1) && s.Valid()
    modifies c0, c1, s.d8, s.d16, s.d32
    ensures s.Valid() && (ok <==> |data| == 1 || Supported(w))
    ensures forall x: nat :: x < c0.Length ==> c0[x] == SumWord(Column(data, x))
    ensures ok ==> forall x: nat :: x < c1.Length ==> c1[x] == HornerWord(Column(data, x), s.Poly(w), w)
    ensures !ok ==> c1[..] == data[|data| - 1][..]
    ensures AreRegions(data) ==> forall x: nat, l: nat, v: seq<nat> ::
      x < c0.Length && IsLane(w, l) && AreLanes(data, x, w, l, v) ==> Lane(c0[x], w, l) == Dot(s.Of(w), seq(|data|, _ => 1), v)
    ensures AreRegions(data) ==> forall x: nat, l: nat, v: seq<nat> ::
      x < c1.Length && IsLane(w, l) && AreLanes(data, x, w, l, v) ==>
        Lane(c1[x], w, l) == Dot(s.Of(w), seq(|data|, j requires 0 <= j => Power(s.Of(w), j)), v)
  {
    hide HornerWord, SumWord, DoubleWord, Lane, Dot, Power, Column;
    SumRegions(data, c0, c1);
    ok := HornerRegions(w, s, data, c0, c1);
    if AreRegions(data) {
      forall x: nat, l: nat, v: seq<nat> | x < c0.Length && IsLane(w, l) && AreLanes(data, x, w, l, v)
        ensures Lane(c0[x], w, l) == Dot(s.Of(w), seq(|data|, _ => 1), v)
        ensures Lane(c1[x], w, l) == Dot(s.Of(w), seq(|data|, j requires 0 <= j => Power(s.Of(w), j)), v)
      {
        LanesOfColumn(s.Of(w), data, x, l, v);
      }
    }
  }

  /** Lane l of word x of every data region. */
  ghost predicate AreLanes(data: seq<array<nat>>, x: nat, w: nat, l: nat, v: seq<nat>)
    reads data
  {
    |v| == |data| && forall j :: 0 <= j < |data| ==> x < data[j].Length && v[j] == Lane(data[j][x], w, l)
  }

  /** Every data word is a 32-bit word. */
  ghost predicate AreRegions(data: seq<array<nat>>)
    reads data
  {
    forall j, x :: 0 <= j < |data| && 0 <= x < data[j].Length ==> data[j][x] < Pow2(32)
  }

  /** The lanes of one column under the two coding rows. */
  lemma {:induction false} LanesOfColumn(f: Field, data: seq<array<nat>>, x: nat, l: nat, v: seq<nat>)
    requires f.Valid() && IsLane(f.w, l) && |data| > 0 && AreRegions(data) && AreLanes(data, x, f.w, l, v)
    ensures Lane(SumWord(Column(data, x)), f.w, l) == Dot(f, seq(|data|, _ => 1), v)
    ensures Lane(HornerWord(Column(data, x), Low(f.poly, f.w), f.w), f.w, l) ==
      Dot(f, seq(|data|, j requires 0 <= j => Power(f, j)), v)
  {
    hide HornerWord, SumWord, Lane, Dot, Power;
    var ds, n := Column(data, x), |data|;
    EncoderIsMatrixProduct(f, ds, l);
    assert LanesOf(ds, f.w, l) == v;
    forall j: nat | j < n
      ensures R6Rows(f, n)[1][j] == Power(f, j)
    {
      R6Power(f, n, j);
    }
    assert R6Rows(f, n)[1] == seq(n, j requires 0 <= j => Power(f, j));
    assert R6Rows(f, n)[0] == seq(n, _ => 1);
  }

  /** The memcpy and the xor loop for coding region 0. */
  method SumRegions(data: seq<array<nat>>, c0: array<nat>, c1: array<nat>)
    requires Regions(data, c0, c1)
    modifies c0
    ensures forall x: nat :: x < c0.Length ==> c0[x] == SumWord(Column(data, x))
  {
    hide Xor;
    Copy(c0, data[0]);
    forall x: nat | x < c0.Length
      ensures c0[x] == SumWord(Column(data, x)[..1])
    {
      assert c0[..][x] == data[0][..][x];
    }
    for i := 1 to |data|
      invariant forall x: nat :: x < c0.Length ==> c0[x] == SumWord(Column(data, x)[..i])
    {
      ghost var before := c0[..];
      RegionXor(c0, data[i], c0);
      forall x: nat | x < c0.Length
        ensures c0[x] == SumWord(Column(data, x)[..i + 1])
      {
        assert before[x] == SumWord(Column(data, x)[..i]);
        assert Column(data, x)[..i + 1][..i] == Column(data, x)[..i];
      }
    }
    forall x: nat | x < c0.Length
      ensures c0[x] == SumWord(Column(data, x))
    {
      assert Column(data, x)[..|data|] == Column(data, x);
    }
  }

  /** In every lane the two words the encoder writes are the coding matrix times the data. */
  lemma {:induction false} EncoderIsMatrixProduct(f: Field, ds: seq<nat>, l: nat)
    requires f.Valid() && IsLane(f.w, l) && |ds| > 0 && AreWords(ds)
    ensures Lane(SumWord(ds), f.w, l) == Dot(f, R6Rows(f, |ds|)[0], LanesOf(ds, f.w, l))
    ensures Lane(HornerWord(ds, Low(f.poly, f.w), f.w), f.w, l) == Dot(f, R6Rows(f, |ds|)[1], LanesOf(ds, f.w, l))
  {
    SumWordIsRow(f, ds, l);
    HornerWordIsRow(f, ds, l);
  }
}
