/** Vectors and polynomials over GF(2^w), and the bound on the number of roots. */
module Vectors {
  import opened Words
  import opened Counting
  import opened GaloisField

  ghost predicate Vector(f: Field, v: seq<nat>, n: nat) {
    |v| == n && forall i :: 0 <= i < n ==> f.Has(v[i])
  }

  ghost predicate Zero(v: seq<nat>) {
    forall i :: 0 <= i < |v| ==> v[i] == 0
  }

  function Dot(f: Field, a: seq<nat>, v: seq<nat>): nat
    requires f.Valid() && |a| == |v|
  {
    if a == [] then 0 else Xor(Mul(f, a[0], v[0]), Dot(f, a[1..], v[1..]))
  }

  /** The vector with a single 1, at position i. */
  function Unit(i: nat, n: nat): (u: seq<nat>)
    ensures |u| == n
  {
    seq(n, j => if j == i then 1 else 0)
  }

  // ---------- dot products ----------

  lemma Tail(f: Field, v: seq<nat>)
    requires |v| > 0 && Vector(f, v, |v|)
    ensures Vector(f, v[1..], |v| - 1) && f.Has(v[0])
  {}

  lemma {:induction false} DotHas(f: Field, a: seq<nat>, v: seq<nat>)
    requires f.Valid() && Vector(f, a, |v|) && Vector(f, v, |v|)
    ensures f.Has(Dot(f, a, v))
  {
    hide Xor, Mul;
    if a != [] {
      Tail(f, a); Tail(f, v);
      DotHas(f, a[1..], v[1..]);
      MulHas(f, a[0], v[0]);
      XorBound(Mul(f, a[0], v[0]), Dot(f, a[1..], v[1..]), f.w);
    }
  }

  lemma {:induction false} DotComm(f: Field, a: seq<nat>, v: seq<nat>)
    requires f.Valid() && Vector(f, a, |v|) && Vector(f, v, |v|)
    ensures Dot(f, a, v) == Dot(f, v, a)
  {
    hide Xor, Mul;
    if a != [] {
      Tail(f, a); Tail(f, v);
      DotComm(f, a[1..], v[1..]);
      MulComm(f, a[0], v[0]);
    }
  }

  /** Changing one entry changes the product by that entry's difference. */
  lemma {:induction false} DotUpdate(f: Field, a: seq<nat>, v: seq<nat>, i: nat, x: nat)
    requires f.Valid() && Vector(f, a, |v|) && Vector(f, v, |v|) && i < |v| && f.Has(x)
    ensures Dot(f, a, v[i := Xor(v[i], x)]) == Xor(Dot(f, a, v), Mul(f, a[i], x))
  {
    hide Xor, Mul;
    var v' := v[i := Xor(v[i], x)];
    var p, d := Mul(f, a[0], v[0]), Dot(f, a[1..], v[1..]);
    Tail(f, a); Tail(f, v);
    if i == 0 {
      MulXorRight(f, a[0], v[0], x);
      var q := Mul(f, a[0], x);
      assert v'[1..] == v[1..];
      XorAssoc(p, q, d);
      XorComm(q, d);
      XorAssoc(p, d, q);
    } else {
      assert v'[1..] == v[1..][i - 1 := Xor(v[1..][i - 1], x)];
      DotUpdate(f, a[1..], v[1..], i - 1, x);
      XorAssoc(p, d, Mul(f, a[i], x));
    }
  }

  lemma {:induction false} DotZero(f: Field, a: seq<nat>, v: seq<nat>)
    requires f.Valid() && |a| == |v| && Zero(v)
    ensures Dot(f, a, v) == 0
  {
    hide Xor, Mul;
    if a != [] {
      DotZero(f, a[1..], v[1..]);
      MulZero(f, a[0]);
      XorZero(0);
    }
  }

  lemma {:induction false} DotUnit(f: Field, a: seq<nat>, i: nat, n: nat)
    requires f.Valid() && Vector(f, a, n) && i < n
    ensures Dot(f, a, Unit(i, n)) == a[i]
    ensures Vector(f, Unit(i, n), n) && Dot(f, Unit(i, n), a) == a[i]
  {
    hide Xor, Mul;
    UnitVector(f, i, n);
    var z := seq(n, _ => 0);
    XorZero(1);
    assert Unit(i, n) == z[i := Xor(z[i], 1)];
    DotZero(f, a, z);
    DotUpdate(f, a, z, i, 1);
    MulOne(f, a[i]);
    XorZero(a[i]);
    DotComm(f, a, Unit(i, n));
  }

  /** The product with a vector that is zero but for entries a and b. */
  lemma {:induction false} DotOfTwo(f: Field, row: seq<nat>, d: seq<nat>, a: nat, b: nat)
    requires f.Valid() && Vector(f, row, |d|) && Vector(f, d, |d|) && a <= b < |d|
    requires forall i :: 0 <= i < |d| && i != a && i != b ==> d[i] == 0
    ensures Dot(f, row, d) ==
      if a == b then Mul(f, row[a], d[a]) else Xor(Mul(f, row[a], d[a]), Mul(f, row[b], d[b]))
  {
    hide Xor, Mul, Dot;
    var z := seq(|d|, _ => 0);
    var y := z[a := Xor(z[a], d[a])];
    XorZero(d[a]);
    XorZero(d[b]);
    DotZero(f, row, z);
    DotUpdate(f, row, z, a, d[a]);
    XorZero(Mul(f, row[a], d[a]));
    if a == b {
      assert y == d;
    } else {
      assert y[b := Xor(y[b], d[b])] == d;
      DotUpdate(f, row, y, b, d[b]);
    }
  }

  lemma UnitVector(f: Field, i: nat, n: nat)
    requires f.Valid()
    ensures Vector(f, Unit(i, n), n)
  {}

  /** The product is linear in its right operand. */
  lemma {:induction false} DotXor(f: Field, a: seq<nat>, u: seq<nat>, v: seq<nat>)
    requires f.Valid() && Vector(f, u, |a|) && Vector(f, v, |a|)
    ensures Dot(f, a, Sum(u, v)) == Xor(Dot(f, a, u), Dot(f, a, v))
  {
    hide Xor, Mul;
    if a == [] {
      XorZero(0);
    } else {
      Tail(f, u); Tail(f, v);
      assert Sum(u, v)[1..] == Sum(u[1..], v[1..]);
      DotXor(f, a[1..], u[1..], v[1..]);
      MulXorRight(f, a[0], u[0], v[0]);
      XorSwap(Mul(f, a[0], u[0]), Dot(f, a[1..], u[1..]), Mul(f, a[0], v[0]), Dot(f, a[1..], v[1..]));
    }
  }

  function Sum(u: seq<nat>, v: seq<nat>): (s: seq<nat>)
    requires |u| == |v|
    ensures |s| == |u|
  {
    seq(|u|, i requires 0 <= i < |u| => Xor(u[i], v[i]))
  }

  /** Scaling the left operand scales the product. */
  lemma {:induction false} DotScale(f: Field, a: seq<nat>, v: seq<nat>, t: nat)
    requires f.Valid() && Vector(f, a, |v|) && Vector(f, v, |v|) && f.Has(t)
    ensures Dot(f, Scale(f, a, t), v) == Mul(f, t, Dot(f, a, v))
  {
    hide Xor, Mul;
    if a == [] {
      MulZero(f, t);
    } else {
      Tail(f, a); Tail(f, v);
      assert Scale(f, a, t)[1..] == Scale(f, a[1..], t);
      DotScale(f, a[1..], v[1..], t);
      MulAssoc(f, t, a[0], v[0]);
      MulHas(f, a[0], v[0]);
      DotHas(f, a[1..], v[1..]);
      MulXorRight(f, t, Mul(f, a[0], v[0]), Dot(f, a[1..], v[1..]));
    }
  }

  function Scale(f: Field, a: seq<nat>, t: nat): (s: seq<nat>)
    requires f.Valid()
    ensures |s| == |a|
  {
    seq(|a|, i requires 0 <= i < |a| => Mul(f, t, a[i]))
  }

  // ---------- polynomials ----------

  /** The polynomial with coefficients c, lowest first, at b. */
  function Eval(f: Field, c: seq<nat>, b: nat): nat
    requires f.Valid()
  {
    if c == [] then 0 else Xor(c[0], Mul(f, b, Eval(f, c[1..], b)))
  }

  lemma {:induction false} EvalHas(f: Field, c: seq<nat>, b: nat)
    requires f.Valid() && Vector(f, c, |c|) && f.Has(b)
    ensures f.Has(Eval(f, c, b))
  {
    hide Xor, Mul;
    if c != [] {
      Tail(f, c);
      EvalHas(f, c[1..], b);
      MulHas(f, b, Eval(f, c[1..], b));
      XorBound(c[0], Mul(f, b, Eval(f, c[1..], b)), f.w);
    }
  }

  lemma {:induction false} EvalZero(f: Field, c: seq<nat>, b: nat)
    requires f.Valid() && Zero(c)
    ensures Eval(f, c, b) == 0
  {
    hide Xor, Mul;
    if c != [] {
      EvalZero(f, c[1..], b);
      MulZero(f, b);
      XorZero(0);
    }
  }

  /** Leading zero coefficients do not matter. */
  lemma {:induction false} EvalPrefix(f: Field, c: seq<nat>, n: nat, b: nat)
    requires f.Valid() && n <= |c| && forall i :: n <= i < |c| ==> c[i] == 0
    ensures Eval(f, c, b) == Eval(f, c[..n], b)
  {
    hide Xor, Mul;
    if n == 0 {
      EvalZero(f, c, b);
    } else {
      assert c[..n][1..] == c[1..][..n - 1];
      EvalPrefix(f, c[1..], n - 1, b);
    }
  }

  lemma {:induction false} EvalSum(f: Field, c: seq<nat>, d: seq<nat>, b: nat)
    requires f.Valid() && Vector(f, c, |c|) && Vector(f, d, |c|) && f.Has(b)
    ensures Eval(f, Sum(c, d), b) == Xor(Eval(f, c, b), Eval(f, d, b))
  {
    hide Mul, Xor;
    if c == [] {
      XorZero(0);
    } else {
      Tail(f, c); Tail(f, d);
      assert Sum(c, d)[1..] == Sum(c[1..], d[1..]);
      EvalSum(f, c[1..], d[1..], b);
      EvalHas(f, c[1..], b);
      EvalHas(f, d[1..], b);
      MulXorRight(f, b, Eval(f, c[1..], b), Eval(f, d[1..], b));
      XorSwap(c[0], Mul(f, b, Eval(f, c[1..], b)), d[0], Mul(f, b, Eval(f, d[1..], b)));
    }
  }

  lemma {:induction false} EvalScale(f: Field, c: seq<nat>, t: nat, b: nat)
    requires f.Valid() && Vector(f, c, |c|) && f.Has(t) && f.Has(b)
    ensures Vector(f, Scale(f, c, t), |c|)
    ensures Eval(f, Scale(f, c, t), b) == Mul(f, t, Eval(f, c, b))
  {
    hide Mul, Xor;
    forall i | 0 <= i < |c| ensures f.Has(Scale(f, c, t)[i]) { MulHas(f, t, c[i]); }
    if c == [] {
      MulZero(f, t);
    } else {
      Tail(f, c);
      assert Scale(f, c, t)[1..] == Scale(f, c[1..], t);
      EvalScale(f, c[1..], t, b);
      EvalHas(f, c[1..], b);
      var e := Eval(f, c[1..], b);
      MulHas(f, b, e);
      MulExchange(f, b, t, e);
      MulXorRight(f, t, c[0], Mul(f, b, e));
    }
  }

  /** Synthetic division by x + a, dropping the remainder. */
  function Deflate(f: Field, c: seq<nat>, a: nat): (q: seq<nat>)
    requires f.Valid()
    ensures |q| == if |c| == 0 then 0 else |c| - 1
  {
    if |c| <= 1 then [] else [Eval(f, c[1..], a)] + Deflate(f, c[1..], a)
  }

  lemma {:induction false} DeflateVector(f: Field, c: seq<nat>, a: nat)
    requires f.Valid() && Vector(f, c, |c|) && f.Has(a)
    ensures Vector(f, Deflate(f, c, a), |Deflate(f, c, a)|)
  {
    hide Xor, Mul;
    if |c| > 1 {
      Tail(f, c);
      EvalHas(f, c[1..], a);
      DeflateVector(f, c[1..], a);
    }
  }

  /** c(b) + c(a) = (b + a) q(b). */
  lemma {:induction false} DeflateEval(f: Field, c: seq<nat>, a: nat, b: nat)
    requires f.Valid() && Vector(f, c, |c|) && f.Has(a) && f.Has(b)
    ensures Xor(Eval(f, c, b), Eval(f, c, a)) == Mul(f, Xor(b, a), Eval(f, Deflate(f, c, a), b))
  {
    hide Xor, Mul;
    var s := Xor(b, a);
    XorBound(b, a, f.w);
    if c == [] {
      MulZero(f, s);
      XorZero(0);
    } else if |c| == 1 {
      assert c[1..] == [];
      MulZero(f, s); MulZero(f, a); MulZero(f, b);
      XorZero(c[0]);
    } else {
      var r := c[1..];
      var rb, ra, q := Eval(f, r, b), Eval(f, r, a), Eval(f, Deflate(f, r, a), b);
      Tail(f, c);
      EvalHas(f, r, b); EvalHas(f, r, a);
      DeflateVector(f, r, a);
      EvalHas(f, Deflate(f, r, a), b);
      assert Deflate(f, c, a)[1..] == Deflate(f, r, a);
      DeflateEval(f, r, a, b);
      MulHas(f, b, q);
      calc {
        Xor(Eval(f, c, b), Eval(f, c, a));
      ==  { XorSwap(c[0], Mul(f, b, rb), c[0], Mul(f, a, ra)); XorZero(c[0]);
            XorZero(Xor(Mul(f, b, rb), Mul(f, a, ra))); }
        Xor(Mul(f, b, rb), Mul(f, a, ra));
      ==  { SumOfProducts(f, b, a, rb, ra); }
        Xor(Mul(f, b, Xor(rb, ra)), Mul(f, s, ra));
      ==  { MulExchange(f, b, s, q); }
        Xor(Mul(f, s, Mul(f, b, q)), Mul(f, s, ra));
      ==  { MulXorRight(f, s, Mul(f, b, q), ra); XorComm(Mul(f, b, q), ra); }
        Mul(f, s, Xor(ra, Mul(f, b, q)));
      }
    }
  }

  /** b u + a v = b (u + v) + (b + a) v. */
  lemma {:induction false} SumOfProducts(f: Field, b: nat, a: nat, u: nat, v: nat)
    requires f.Valid() && f.Has(u) && f.Has(v)
    ensures Xor(Mul(f, b, u), Mul(f, a, v)) == Xor(Mul(f, b, Xor(u, v)), Mul(f, Xor(b, a), v))
  {
    hide Xor, Mul;
    var bu, bv, av := Mul(f, b, u), Mul(f, b, v), Mul(f, a, v);
    MulXorRight(f, b, u, v);
    MulXorLeft(f, b, a, v);
    XorAssoc(bu, bv, Xor(bv, av));
    XorCancel(bv, av);
  }

  lemma {:induction false} DeflateZero(f: Field, c: seq<nat>, a: nat)
    requires f.Valid() && Zero(Deflate(f, c, a)) && Eval(f, c, a) == 0
    ensures Zero(c)
  {
    hide Xor, Mul;
    if |c| == 1 {
      assert c[1..] == [];
      MulZero(f, a);
      XorZero(c[0]);
    } else if |c| > 1 {
      var q := Deflate(f, c, a);
      assert q[0] == 0;
      assert Deflate(f, c[1..], a) == q[1..];
      DeflateZero(f, c[1..], a);
      MulZero(f, a);
      XorZero(c[0]);
    }
  }

  /** A polynomial with as many distinct roots as coefficients is zero. */
  lemma {:induction false} TooManyRoots(f: Field, c: seq<nat>, roots: seq<nat>)
    requires IsField(f) && Vector(f, c, |c|) && Vector(f, roots, |c|) && Distinct(roots)
    requires forall i :: 0 <= i < |roots| ==> Eval(f, c, roots[i]) == 0
    ensures Zero(c)
    decreases |c|
  {
    hide Xor, Mul;
    if c != [] {
      var n := |c| - 1;
      var a, rest, q := roots[n], roots[..n], Deflate(f, c, roots[n]);
      DeflateVector(f, c, a);
      forall i | 0 <= i < n
        ensures Eval(f, q, rest[i]) == 0
      {
        var b := roots[i];
        DeflateEval(f, c, a, b);
        XorZero(0);
        XorBound(b, a, f.w);
        EvalHas(f, q, b);
        XorZeroIsEqual(b, a);
      }
      TooManyRoots(f, q, rest);
      DeflateZero(f, c, a);
    }
  }
}
