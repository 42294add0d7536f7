/** galois_w08_, _w16_ and _w32_region_multiply: a region of field elements times one element. */
module Regions {
  import opened Words
  import opened GaloisField
  import opened PrimitiveElement
  import opened ShiftArithmetic
  import opened FieldTables
  import opened Modular
  import SplitTables

  /** Every element of the region is a word of the field. */
  ghost predicate Elements(f: Field, a: seq<nat>) {
    forall i :: 0 <= i < |a| ==> f.Has(a[i])
  }

  /** What becomes of one target element. */
  function Product(f: Field, multby: nat, x: nat, before: nat, add: bool): nat
    requires f.Valid()
  {
    if add then Xor(before, Mul(f, multby, x)) else Mul(f, multby, x)
  }

  /** The whole region. */
  ghost predicate Multiplied(f: Field, multby: nat, source: seq<nat>, before: seq<nat>, after: seq<nat>, add: bool)
    requires f.Valid()
  {
    |source| == |before| == |after| &&
    forall i :: 0 <= i < |source| ==> after[i] == Product(f, multby, source[i], before[i], add)
  }

  /** The table that the word size looks products up in is present. */
  ghost predicate Present(t: Tables)
    reads t
  {
    t.Sound() && ((t.f.w == 8 && t.mult != []) || (t.f.w == 16 && t.log != []) || (t.f.w == 32 && t.split != []))
  }

  /** The table lookup that the three region loops contain inline. */
  method Lookup(t: Tables, multby: nat, x: nat) returns (z: nat)
    requires Present(t) && t.f.Has(multby) && t.f.Has(x)
    ensures z == Mul(t.f, multby, x)
  {
    hide Mul;
    if t.f.w == 8 {
      z := t.MulttableMultiply(multby, x);
    } else if t.f.w == 16 {
      z := t.LogtableMultiply(multby, x);
    } else {
      z := SplitTables.SplitMultiply(t.f, t.split, multby, x);
    }
  }

  /** The loop that writes products over the target, which may be the region itself. */
  method Overwrite(t: Tables, region: array<nat>, multby: nat, ur2: array<nat>)
    requires Present(t) && t.f.Has(multby) && Elements(t.f, region[..]) && ur2.Length == region.Length
    modifies ur2
    ensures Multiplied(t.f, multby, old(region[..]), old(ur2[..]), ur2[..], false)
  {
    hide Mul, Xor;
    for i := 0 to region.Length
      invariant forall k :: i <= k < region.Length ==> region[k] == old(region[k])
      invariant forall k :: 0 <= k < i ==> ur2[k] == Mul(t.f, multby, old(region[k]))
    {
      assert t.f.Has(old(region[..])[i]);
      ur2[i] := Lookup(t, multby, region[i]);
    }
  }

  /** The loop of w = 32 that adds products to the target. */
  method Accumulate(t: Tables, region: array<nat>, multby: nat, ur2: array<nat>)
    requires Present(t) && t.f.Has(multby) && Elements(t.f, region[..]) && ur2.Length == region.Length
    modifies ur2
    ensures Multiplied(t.f, multby, old(region[..]), old(ur2[..]), ur2[..], true)
  {
    hide Mul, Xor;
    for i := 0 to region.Length
      invariant forall k :: i <= k < region.Length ==> region[k] == old(region[k]) && ur2[k] == old(ur2[k])
      invariant forall k :: 0 <= k < i ==> ur2[k] == Xor(old(ur2[k]), Mul(t.f, multby, old(region[k])))
    {
      assert t.f.Has(old(region[..])[i]);
      var z := Lookup(t, multby, region[i]);
      ur2[i] := Xor(ur2[i], z);
    }
  }

  /** The products of one machine word of sol elements. */
  method ChunkProducts(t: Tables, region: array<nat>, multby: nat, i: nat, sol: nat) returns (l: array<nat>)
    requires Present(t) && t.f.Has(multby) && i + sol <= region.Length
    requires forall k :: i <= k < i + sol ==> t.f.Has(region[k])
    ensures fresh(l) && l.Length == sol && forall j :: 0 <= j < sol ==> l[j] == Mul(t.f, multby, region[i + j])
  {
    hide Mul;
    l := new nat[sol];
    for j := 0 to sol
      invariant forall k :: 0 <= k < j ==> l[k] == Mul(t.f, multby, region[i + k])
    {
      l[j] := Lookup(t, multby, region[i + j]);
    }
  }

  /** `*lp2 = *lp2 ^ l` on one machine word. */
  method AddChunk(target: array<nat>, i: nat, l: array<nat>)
    requires i + l.Length <= target.Length && l != target
    modifies target
    ensures forall k :: i <= k < i + l.Length ==> target[k] == Xor(old(target[k]), l[k - i])
    ensures forall k :: 0 <= k < target.Length && !(i <= k < i + l.Length) ==> target[k] == old(target[k])
  {
    hide Xor;
    for j := 0 to l.Length
      invariant forall k :: i <= k < i + j ==> target[k] == Xor(old(target[k]), l[k - i])
      invariant forall k :: 0 <= k < target.Length && !(i <= k < i + j) ==> target[k] == old(target[k])
    {
      target[i + j] := Xor(target[i + j], l[j]);
    }
  }

  /** There is room for a whole machine word at every multiple of its size. */
  lemma RoomForChunk(i: nat, sol: nat, n: nat)
    requires sol > 0 && i % sol == 0 && n % sol == 0 && i < n
    ensures i + sol <= n && (i + sol) % sol == 0
  {
    ModEqual(n, i, sol);
    if n - i < sol { ModSmall(n - i, sol); }
    ModShift(i, 1, sol);
  }

  /** The loop of w = 8 and w = 16 that adds products machine word by machine word. */
  method AccumulateChunks(t: Tables, region: array<nat>, multby: nat, ur2: array<nat>, sol: nat)
    requires Present(t) && t.f.Has(multby) && Elements(t.f, region[..]) && ur2.Length == region.Length
    requires sol > 0 && region.Length % sol == 0
    modifies ur2
    ensures Multiplied(t.f, multby, old(region[..]), old(ur2[..]), ur2[..], true)
  {
    hide Mul, Xor, Tables.Sound;
    var i := 0;
    forall k | 0 <= k < region.Length ensures t.f.Has(region[k]) { assert t.f.Has(region[..][k]); }
    while i < region.Length
      invariant 0 <= i <= region.Length && i % sol == 0
      invariant forall k :: i <= k < region.Length ==> region[k] == old(region[k]) && ur2[k] == old(ur2[k])
      invariant forall k :: 0 <= k < i ==> ur2[k] == Xor(old(ur2[k]), Mul(t.f, multby, old(region[k])))
    {
      RoomForChunk(i, sol, region.Length);
      var l := ChunkProducts(t, region, multby, i, sol);
      forall k | i <= k < i + sol
        ensures l[k - i] == Mul(t.f, multby, old(region[k]))
      {
        assert l[k - i] == Mul(t.f, multby, region[i + (k - i)]);
      }
      AddChunk(ur2, i, l);
      i := i + sol;
    }
  }

  /** The loop that clears the target machine word by machine word. */
  method ClearChunks(ur2: array<nat>, sol: nat)
    requires sol > 0 && ur2.Length % sol == 0
    modifies ur2
    ensures forall i :: 0 <= i < ur2.Length ==> ur2[i] == 0
  {
    var i := 0;
    while i < ur2.Length
      invariant 0 <= i <= ur2.Length && i % sol == 0
      invariant forall k :: 0 <= k < i ==> ur2[k] == 0
    {
      RoomForChunk(i, sol, ur2.Length);
      for j := 0 to sol
        invariant forall k :: 0 <= k < i + j ==> ur2[k] == 0
      {
        ur2[i + j] := 0;
      }
      i := i + sol;
    }
  }

  lemma {:induction false} MultipliedAt(f: Field, multby: nat, source: seq<nat>, before: seq<nat>, after: seq<nat>, add: bool)
    requires f.Valid() && Multiplied(f, multby, source, before, after, add)
    ensures |source| == |before| == |after|
    ensures forall i :: 0 <= i < |after| ==>
      after[i] == if add then Xor(before[i], Mul(f, multby, source[i])) else Mul(f, multby, source[i])
  {}

  /** galois_w08_region_multiply; sol is sizeof(long). Without a separate target, add is ignored. */
  method W08RegionMultiply(t: Tables, region: array<nat>, multby: nat, r2: array?<nat>, add: bool, sol: nat)
    returns (r: Result)
    requires t.Valid() && t.f.w == 8 && t.f.Has(multby) && Elements(t.f, region[..])
    requires r2 != null ==> r2.Length == region.Length
    requires sol > 0 && region.Length % sol == 0
    modifies t, region, r2
    ensures t.Valid() && (r == Ok(0) || r == Exit) && (r == Ok(0) <==> NoCollision(t.f))
    ensures r2 != null && r2 != region ==> region[..] == old(region[..])
    ensures r == Exit ==> unchanged(region) && (r2 != null ==> unchanged(r2))
    ensures r == Ok(0) ==> var target := if r2 == null then region else r2;
      Multiplied(t.f, multby, old(region[..]), old(target[..]), target[..], r2 != null && add)
    ensures r == Ok(0) ==> var target := if r2 == null then region else r2;
      forall i :: 0 <= i < target.Length ==> (
        target[i] ==
        if r2 != null && add then Xor(old(target[i]), Mul(t.f, multby, old(region[i]))) else Mul(t.f, multby, old(region[i])))
  {
    hide Mul, Xor, Multiplied, Elements;
    var ur2 := if r2 == null then region else r2;
    ghost var source, before := region[..], ur2[..];
    r := t.CreateMultTables();
    if r != Ok(0) { return; }
    if r2 == null || !add {
      Overwrite(t, region, multby, ur2);
    } else {
      AccumulateChunks(t, region, multby, ur2, sol);
    }
    MultipliedAt(t.f, multby, source, before, ur2[..], r2 != null && add);
  }

  /** galois_w16_region_multiply; sol is sizeof(long) / 2. A zero multiplier needs no tables, and it
      obeys add even without a separate target; any other multiplier then ignores add. */
  method W16RegionMultiply(t: Tables, region: array<nat>, multby: nat, r2: array?<nat>, add: bool, sol: nat)
    returns (r: Result)
    requires t.Valid() && t.f.w == 16 && t.f.Has(multby) && Elements(t.f, region[..])
    requires r2 != null ==> r2.Length == region.Length
    requires sol > 0 && region.Length % sol == 0
    modifies t, region, r2
    ensures t.Valid() && (r == Ok(0) || r == Exit) && (r == Ok(0) <==> multby == 0 || NoCollision(t.f))
    ensures r2 != null && r2 != region ==> region[..] == old(region[..])
    ensures r == Exit ==> unchanged(region) && (r2 != null ==> unchanged(r2))
    ensures r == Ok(0) ==> var target := if r2 == null then region else r2;
      Multiplied(t.f, multby, old(region[..]), old(target[..]), target[..], add && (r2 != null || multby == 0))
    ensures r == Ok(0) ==> var target := if r2 == null then region else r2;
      forall i :: 0 <= i < target.Length ==> (
        target[i] ==
        if add && (r2 != null || multby == 0) then Xor(old(target[i]), Mul(t.f, multby, old(region[i]))) else Mul(t.f, multby, old(region[i])))
  {
    hide Mul, Xor, Multiplied, Elements;
    var ur2 := if r2 == null then region else r2;
    ghost var source, before := region[..], ur2[..];
    if multby == 0 {
      if !add { ClearChunks(ur2, sol); }
      TimesZero(t.f, source, before, ur2[..], add);
      MultipliedAt(t.f, multby, source, before, ur2[..], add && (r2 != null || multby == 0));
      return Ok(0);
    }
    r := t.CreateLogTables();
    if r != Ok(0) { return; }
    if r2 == null || !add {
      Overwrite(t, region, multby, ur2);
    } else {
      AccumulateChunks(t, region, multby, ur2, sol);
    }
    MultipliedAt(t.f, multby, source, before, ur2[..], add && (r2 != null || multby == 0));
  }

  lemma TimesZero(f: Field, source: seq<nat>, before: seq<nat>, after: seq<nat>, add: bool)
    requires f.Valid() && |source| == |before| == |after|
    requires if add then after == before else forall i :: 0 <= i < |after| ==> after[i] == 0
    ensures Multiplied(f, 0, source, before, after, add)
  {
    forall i | 0 <= i < |source|
      ensures after[i] == Product(f, 0, source[i], before[i], add)
    {
      MulZero(f, source[i]);
      XorZero(before[i]);
    }
  }

  /** galois_w32_region_multiply; add is obeyed even without a separate target. */
  method W32RegionMultiply(t: Tables, region: array<nat>, multby: nat, r2: array?<nat>, add: bool) returns (r: Result)
    requires t.Valid() && t.f.w == 32 && t.f.Has(multby) && Elements(t.f, region[..])
    requires r2 != null ==> r2.Length == region.Length
    modifies t, t.eight, region, r2
    ensures t.Valid() && (r == Ok(0) || r == Exit)
    ensures r == Exit <==> old(t.split) == [] && !NoCollision(t.Eight())
    ensures r2 != null && r2 != region ==> region[..] == old(region[..])
    ensures r == Exit ==> unchanged(region) && (r2 != null ==> unchanged(r2))
    ensures r == Ok(0) ==> var target := if r2 == null then region else r2;
      Multiplied(t.f, multby, old(region[..]), old(target[..]), target[..], add)
    ensures r == Ok(0) ==> var target := if r2 == null then region else r2;
      forall i :: 0 <= i < target.Length ==> (
        target[i] ==
        if add then Xor(old(target[i]), Mul(t.f, multby, old(region[i]))) else Mul(t.f, multby, old(region[i])))
  {
    hide Mul, Xor, Multiplied, Elements;
    var ur2 := if r2 == null then region else r2;
    ghost var source, before := region[..], ur2[..];
    r := Ok(0);
    if t.split == [] {
      r := t.CreateSplitTables();
      if r != Ok(0) { return; }
    }
    if !add {
      Overwrite(t, region, multby, ur2);
    } else {
      Accumulate(t, region, multby, ur2);
    }
    MultipliedAt(t.f, multby, source, before, ur2[..], add);
  }

  // ---------- add without a separate target ----------

  /** What galois.h promises: add counts only together with a separate target. */
  ghost predicate AsDocumented(f: Field, multby: nat, source: seq<nat>, before: seq<nat>, after: seq<nat>, separate: bool, add: bool)
    requires f.Valid()
  {
    Multiplied(f, multby, source, before, after, separate && add)
  }

  /** Where add is obeyed in place, the promise is kept exactly if add is not set, or there is a
      separate target, or the region is all zero. */
  lemma PromiseKeptIff(f: Field, multby: nat, source: seq<nat>, before: seq<nat>, after: seq<nat>, separate: bool, add: bool)
    requires f.Valid() && f.Has(multby) && Elements(f, source) && Elements(f, before)
    requires Multiplied(f, multby, source, before, after, add) && (separate || before == source)
    ensures AsDocumented(f, multby, source, before, after, separate, add) <==>
      !add || separate || forall i :: 0 <= i < |source| ==> source[i] == 0
  {
    hide Mul, Xor;
    if add && !separate {
      forall i | 0 <= i < |source|
        ensures after[i] == Product(f, multby, source[i], before[i], false) <==> source[i] == 0
      {
        var m := Mul(f, multby, source[i]);
        XorCancel(source[i], m);
        XorZero(m);
      }
    }
  }
}
