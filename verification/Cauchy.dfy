/** Cauchy coding matrices: why every one of them, and every rescaling, tolerates m lost devices. */
module Cauchy {
  import opened Words
  import opened Counting
  import opened GaloisField
  import opened Vectors
  import opened Matrices

  /** The k identity rows of the data devices above the rows of a coding matrix. */
  function Generator(a: seq<seq<nat>>, k: nat): (m: seq<seq<nat>>)
    ensures |m| == k + |a|
  {
    seq(k + |a|, r requires 0 <= r < k + |a| => if r < k then Unit(r, k) else a[r - k])
  }

  /** Two lists of words without a word in common or repeated. */
  ghost predicate Apart(f: Field, x: seq<nat>, y: seq<nat>) {
    Vector(f, x, |x|) && Vector(f, y, |y|) && Distinct(x) && Distinct(y) &&
    forall i, j :: 0 <= i < |x| && 0 <= j < |y| ==> x[i] != y[j]
  }

  /** Row i, column j is 1 / (x_i + y_j). */
  ghost predicate IsCauchy(f: Field, a: seq<seq<nat>>, x: seq<nat>, y: seq<nat>)
    requires f.Valid()
  {
    Matrix(f, a, |x|, |y|) &&
    forall i, j :: 0 <= i < |x| && 0 <= j < |y| ==> Mul(f, a[i][j], Xor(x[i], y[j])) == 1
  }

  lemma GeneratorMatrix(f: Field, a: seq<seq<nat>>, m: nat, k: nat)
    requires f.Valid() && Matrix(f, a, m, k)
    ensures Matrix(f, Generator(a, k), k + m, k) && UnitRows(Generator(a, k), k, k)
  {
    forall r | 0 <= r < k + m
      ensures Vector(f, Generator(a, k)[r], k)
    {
      if r < k { UnitVector(f, r, k); }
    }
  }

  // ---------- polynomials with prescribed roots ----------

  /** c times (z + y). */
  function TimesLinear(f: Field, c: seq<nat>, y: nat): (p: seq<nat>)
    requires f.Valid()
    ensures |p| == |c| + 1
  {
    if c == [] then [0]
    else
      var rest := TimesLinear(f, c[1..], y);
      [Mul(f, y, c[0])] + [Xor(c[0], rest[0])] + rest[1..]
  }

  lemma {:induction false} TimesLinearHas(f: Field, c: seq<nat>, y: nat)
    requires f.Valid() && Vector(f, c, |c|) && f.Has(y)
    ensures Vector(f, TimesLinear(f, c, y), |c| + 1)
  {
    hide Mul, Xor;
    if c != [] {
      Tail(f, c);
      TimesLinearHas(f, c[1..], y);
      MulHas(f, y, c[0]);
      XorBound(c[0], TimesLinear(f, c[1..], y)[0], f.w);
    }
  }

  lemma {:induction false} TimesLinearEval(f: Field, c: seq<nat>, y: nat, b: nat)
    requires f.Valid() && Vector(f, c, |c|) && f.Has(y) && f.Has(b)
    ensures Eval(f, TimesLinear(f, c, y), b) == Mul(f, Xor(b, y), Eval(f, c, b))
  {
    hide Mul, Xor;
    var s := Xor(b, y);
    XorBound(b, y, f.w);
    if c == [] {
      assert TimesLinear(f, c, y)[1..] == [];
      MulZero(f, b); MulZero(f, s);
      XorZero(0);
    } else {
      Tail(f, c);
      var rest, e := TimesLinear(f, c[1..], y), Eval(f, c[1..], b);
      var p := TimesLinear(f, c, y);
      TimesLinearEval(f, c[1..], y, b);
      TimesLinearHas(f, c[1..], y);
      EvalHas(f, c[1..], b);
      EvalHas(f, rest, b);
      assert p[1..] == [Xor(c[0], rest[0])] + rest[1..];
      assert p[1..][1..] == rest[1..];
      var t := Mul(f, b, Eval(f, rest[1..], b));
      calc {
        Eval(f, p[1..], b);
      ==
        Xor(Xor(c[0], rest[0]), t);
      ==  { XorAssoc(c[0], rest[0], t); }
        Xor(c[0], Eval(f, rest, b));
      ==
        Xor(c[0], Mul(f, s, e));
      }
      MulHas(f, s, e);
      MulHas(f, b, e);
      var yc, bc := Mul(f, y, c[0]), Mul(f, b, c[0]);
      calc {
        Eval(f, p, b);
      ==  { MulXorRight(f, b, c[0], Mul(f, s, e)); }
        Xor(yc, Xor(bc, Mul(f, b, Mul(f, s, e))));
      ==  { XorAssoc(yc, bc, Mul(f, b, Mul(f, s, e))); XorComm(yc, bc); MulXorLeft(f, b, y, c[0]); MulExchange(f, b, s, e); }
        Xor(Mul(f, s, c[0]), Mul(f, s, Mul(f, b, e)));
      ==  { MulXorRight(f, s, c[0], Mul(f, b, e)); }
        Mul(f, s, Eval(f, c, b));
      }
    }
  }

  /** The product of (z + y_l) for l < t. */
  function Denominator(f: Field, y: seq<nat>, t: nat): (p: seq<nat>)
    requires f.Valid() && t <= |y|
    ensures |p| == t + 1
  {
    if t == 0 then [1] else TimesLinear(f, Denominator(f, y, t - 1), y[t - 1])
  }

  /** The sum over j < t of v_j times the product of (z + y_l) for l < t, l != j. */
  function Numerator(f: Field, y: seq<nat>, v: seq<nat>, t: nat): (p: seq<nat>)
    requires f.Valid() && t <= |y| == |v|
    ensures |p| == t
  {
    if t == 0 then []
    else Sum(TimesLinear(f, Numerator(f, y, v, t - 1), y[t - 1]), Scale(f, Denominator(f, y, t - 1), v[t - 1]))
  }

  lemma {:induction false} DenominatorHas(f: Field, y: seq<nat>, t: nat)
    requires f.Valid() && Vector(f, y, |y|) && t <= |y|
    ensures Vector(f, Denominator(f, y, t), t + 1)
  {
    if t > 0 {
      DenominatorHas(f, y, t - 1);
      TimesLinearHas(f, Denominator(f, y, t - 1), y[t - 1]);
    }
  }

  /** The denominator vanishes at y_0, ..., y_(t-1) and nowhere else. */
  lemma {:induction false} DenominatorRoots(f: Field, y: seq<nat>, t: nat, b: nat)
    requires IsField(f) && Vector(f, y, |y|) && t <= |y| && f.Has(b)
    ensures f.Has(Eval(f, Denominator(f, y, t), b))
    ensures Eval(f, Denominator(f, y, t), b) == 0 <==> b in y[..t]
  {
    hide Mul, Xor;
    DenominatorHas(f, y, t);
    EvalHas(f, Denominator(f, y, t), b);
    if t == 0 {
      assert Denominator(f, y, 0)[1..] == [];
      MulZero(f, b);
      XorZero(1);
    } else {
      var d := Denominator(f, y, t - 1);
      DenominatorRoots(f, y, t - 1, b);
      DenominatorHas(f, y, t - 1);
      TimesLinearEval(f, d, y[t - 1], b);
      XorBound(b, y[t - 1], f.w);
      XorZeroIsEqual(b, y[t - 1]);
      MulZero(f, Eval(f, d, b));
      MulZero(f, Xor(b, y[t - 1]));
      assert y[..t] == y[..t - 1] + [y[t - 1]];
    }
  }

  lemma {:induction false} NumeratorNext(f: Field, y: seq<nat>, v: seq<nat>, t: nat, b: nat)
    requires f.Valid() && Vector(f, y, |y|) && Vector(f, v, |y|) && t < |y| && f.Has(b)
    ensures Vector(f, Numerator(f, y, v, t), t) && Vector(f, Numerator(f, y, v, t + 1), t + 1)
    ensures Eval(f, Numerator(f, y, v, t + 1), b) ==
      Xor(Mul(f, Xor(b, y[t]), Eval(f, Numerator(f, y, v, t), b)), Mul(f, v[t], Eval(f, Denominator(f, y, t), b)))
  {
    hide Mul, Xor, Eval, TimesLinear;
    if t > 0 { NumeratorNext(f, y, v, t - 1, b); }
    var n, d := Numerator(f, y, v, t), Denominator(f, y, t);
    DenominatorHas(f, y, t);
    TimesLinearHas(f, n, y[t]);
    TimesLinearEval(f, n, y[t], b);
    EvalScale(f, d, v[t], b);
    EvalSum(f, TimesLinear(f, n, y[t]), Scale(f, d, v[t]), b);
    var s := Sum(TimesLinear(f, n, y[t]), Scale(f, d, v[t]));
    assert s == Numerator(f, y, v, t + 1);
    forall i | 0 <= i <= t ensures f.Has(s[i]) { XorBound(TimesLinear(f, n, y[t])[i], Scale(f, d, v[t])[i], f.w); }
  }

  /** At y_j the numerator vanishes exactly if v_j does. */
  lemma {:induction false} NumeratorAtPole(f: Field, y: seq<nat>, v: seq<nat>, t: nat, j: nat)
    requires IsField(f) && Vector(f, y, |y|) && Vector(f, v, |y|) && Distinct(y) && j < t <= |y|
    ensures Eval(f, Numerator(f, y, v, t), y[j]) == 0 <==> v[j] == 0
    decreases t
  {
    hide Mul, Xor, Eval, Numerator, Denominator;
    var b, last := y[j], t - 1;
    NumeratorNext(f, y, v, last, b);
    DenominatorRoots(f, y, last, b);
    var n, d := Eval(f, Numerator(f, y, v, last), b), Eval(f, Denominator(f, y, last), b);
    EvalHas(f, Numerator(f, y, v, last), b);
    XorBound(b, y[last], f.w);
    XorZero(b);
    XorZeroIsEqual(b, y[last]);
    MulZero(f, n); MulZero(f, d); MulZero(f, v[last]); MulZero(f, Xor(b, y[last]));
    XorZero(Mul(f, v[last], d));
    XorZero(Mul(f, Xor(b, y[last]), n));
    if j == last {
      assert b !in y[..last];
    } else {
      assert b in y[..last] by { assert y[..last][j] == b; }
      NumeratorAtPole(f, y, v, last, j);
    }
  }

  lemma {:induction false} DotSnoc(f: Field, a: seq<nat>, v: seq<nat>, t: nat)
    requires f.Valid() && t < |a| == |v|
    ensures Dot(f, a[..t + 1], v[..t + 1]) == Xor(Dot(f, a[..t], v[..t]), Mul(f, a[t], v[t]))
  {
    hide Mul, Xor;
    var a', v' := a[..t + 1], v[..t + 1];
    if t == 0 {
      assert a'[1..] == [] && v'[1..] == [];
      XorZero(Mul(f, a[0], v[0]));
    } else {
      assert a'[1..] == a[1..][..t] && v'[1..] == v[1..][..t];
      assert a[..t][1..] == a[1..][..t - 1] && v[..t][1..] == v[1..][..t - 1];
      DotSnoc(f, a[1..], v[1..], t - 1);
      XorAssoc(Mul(f, a[0], v[0]), Dot(f, a[1..][..t - 1], v[1..][..t - 1]), Mul(f, a[t], v[t]));
    }
  }

  /** Away from the poles the numerator is the denominator times the row product. */
  lemma {:induction false} NumeratorIsProduct(f: Field, row: seq<nat>, x: nat, y: seq<nat>, v: seq<nat>, t: nat)
    requires f.Valid() && Vector(f, y, |y|) && Vector(f, v, |y|) && Vector(f, row, |y|) && f.Has(x) && t <= |y|
    requires forall j :: 0 <= j < |y| ==> Mul(f, row[j], Xor(x, y[j])) == 1
    ensures Eval(f, Numerator(f, y, v, t), x) == Mul(f, Eval(f, Denominator(f, y, t), x), Dot(f, row[..t], v[..t]))
  {
    hide Mul, Xor, Eval, Numerator, Denominator, Dot;
    if t == 0 {
      NumeratorIsProductBase(f, row, x, y, v);
    } else {
      var k := t - 1;
      NumeratorIsProduct(f, row, x, y, v, k);
      NumeratorNext(f, y, v, k, x);
      DenominatorHas(f, y, k);
      TimesLinearEval(f, Denominator(f, y, k), y[k], x);
      DenominatorStep(f, y, t);
      DotSnoc(f, row, v, k);
      var s, d, p, vk, r := Xor(x, y[k]), Eval(f, Denominator(f, y, k), x), Dot(f, row[..k], v[..k]), v[k], row[k];
      XorBound(x, y[k], f.w);
      EvalHas(f, Denominator(f, y, k), x);
      DotHas(f, row[..k], v[..k]);
      MulHas(f, s, d); MulHas(f, r, vk); MulHas(f, d, p);
      calc {
        Mul(f, Mul(f, s, d), Xor(p, Mul(f, r, vk)));
      ==  { MulXorRight(f, Mul(f, s, d), p, Mul(f, r, vk)); MulAssoc(f, s, d, p); }
        Xor(Mul(f, s, Mul(f, d, p)), Mul(f, Mul(f, s, d), Mul(f, r, vk)));
      ==  { PoleTerm(f, s, d, r, vk); }
        Xor(Mul(f, s, Mul(f, d, p)), Mul(f, vk, d));
      }
    }
  }

  lemma DenominatorStep(f: Field, y: seq<nat>, t: nat)
    requires f.Valid() && 0 < t <= |y|
    ensures Denominator(f, y, t) == TimesLinear(f, Denominator(f, y, t - 1), y[t - 1])
  {}

  lemma {:induction false} NumeratorIsProductBase(f: Field, row: seq<nat>, x: nat, y: seq<nat>, v: seq<nat>)
    requires f.Valid() && |row| == |y| == |v|
    ensures Eval(f, Numerator(f, y, v, 0), x) == Mul(f, Eval(f, Denominator(f, y, 0), x), Dot(f, row[..0], v[..0]))
  {
    MulZero(f, Eval(f, Denominator(f, y, 0), x));
  }

  /** (s d)(r v) = v d when r s = 1. */
  lemma {:induction false} PoleTerm(f: Field, s: nat, d: nat, r: nat, v: nat)
    requires f.Valid() && f.Has(s) && f.Has(d) && f.Has(r) && f.Has(v) && Mul(f, r, s) == 1
    ensures Mul(f, Mul(f, s, d), Mul(f, r, v)) == Mul(f, v, d)
  {
    hide Mul;
    MulHas(f, s, d);
    MulExchange(f, Mul(f, s, d), r, v);
    MulComm(f, Mul(f, s, d), v);
    MulExchange(f, v, s, d);
    MulHas(f, v, d);
    MulExchange(f, r, v, Mul(f, s, d));
    MulAssoc(f, r, s, d);
    MulOne(f, d);
  }

  // ---------- the theorem ----------

  /** The point at which device r makes the numerator vanish. */
  function Point(x: seq<nat>, y: seq<nat>, r: nat): nat
    requires r < |y| + |x|
  {
    if r < |y| then y[r] else x[r - |y|]
  }

  /** A Cauchy matrix under the identity is MDS. */
  lemma CauchyMDS(f: Field, a: seq<seq<nat>>, x: seq<nat>, y: seq<nat>)
    requires IsField(f) && Apart(f, x, y) && IsCauchy(f, a, x, y)
    ensures MDS(f, Generator(a, |y|), |y| + |x|, |y|)
  {
    hide Mul, Xor, Eval, Numerator, Denominator, Dot;
    var k, m := |y|, Generator(a, |y|);
    forall devices, v | Selection(devices, k, k + |x|) && Vector(f, v, k) && Kills(f, m, devices, v)
      ensures Zero(v)
    {
      if k > 0 { NumeratorNext(f, y, v, k - 1, 0); }
      var p := Numerator(f, y, v, k);
      var points := seq(k, t requires 0 <= t < k => Point(x, y, devices[t]));
      forall t | 0 <= t < k
        ensures f.Has(points[t]) && Eval(f, p, points[t]) == 0
      {
        DeviceIsRoot(f, a, x, y, v, devices[t]);
      }
      PointsDistinct(f, x, y, devices, points);
      TooManyRoots(f, p, points);
      forall j | 0 <= j < k
        ensures v[j] == 0
      {
        EvalZero(f, p, y[j]);
        NumeratorAtPole(f, y, v, k, j);
      }
    }
  }

  lemma PointsDistinct(f: Field, x: seq<nat>, y: seq<nat>, devices: seq<nat>, points: seq<nat>)
    requires Apart(f, x, y) && Selection(devices, |y|, |y| + |x|)
    requires |points| == |y| && forall t :: 0 <= t < |y| ==> points[t] == Point(x, y, devices[t])
    ensures Distinct(points)
  {
    forall i, j | 0 <= i < j < |points|
      ensures points[i] != points[j]
    {
      assert devices[i] != devices[j];
    }
  }

  lemma {:induction false} DeviceIsRoot(f: Field, a: seq<seq<nat>>, x: seq<nat>, y: seq<nat>, v: seq<nat>, r: nat)
    requires IsField(f) && Apart(f, x, y) && IsCauchy(f, a, x, y) && Vector(f, v, |y|) && r < |y| + |x|
    requires Dot(f, Generator(a, |y|)[r], v) == 0
    ensures f.Has(Point(x, y, r)) && Eval(f, Numerator(f, y, v, |y|), Point(x, y, r)) == 0
  {
    hide Mul, Xor, Eval, Numerator, Denominator, Dot;
    var k := |y|;
    if r < k {
      UnitVector(f, r, k);
      DotUnit(f, v, r, k);
      NumeratorAtPole(f, y, v, k, r);
    } else {
      var row, b := a[r - k], x[r - k];
      forall j | 0 <= j < k
        ensures Mul(f, row[j], Xor(b, y[j])) == 1
      {
      }
      NumeratorIsProduct(f, row, b, y, v, k);
      assert row[..k] == row && v[..k] == v;
      MulZero(f, Eval(f, Denominator(f, y, k), b));
    }
  }

  // ---------- square submatrices ----------

  /** The numbers below n that are not in the list, in order. */
  function Others(chosen: seq<nat>, n: nat): (s: seq<nat>)
    ensures forall x: nat :: x in s <==> x < n && x !in chosen
  {
    if n == 0 then [] else Others(chosen, n - 1) + (if n - 1 in chosen then [] else [n - 1])
  }

  lemma {:induction false} OthersDistinct(chosen: seq<nat>, n: nat)
    ensures Distinct(Others(chosen, n))
  {
    if n > 0 {
      OthersDistinct(chosen, n - 1);
      var s, t := Others(chosen, n - 1), Others(chosen, n);
      forall i, j | 0 <= i < j < |t|
        ensures t[i] != t[j]
      {
        assert t[i] in s;
      }
    }
  }

  lemma {:induction false} OthersCount(chosen: seq<nat>, n: nat, k: nat)
    requires Selection(chosen, n, k)
    ensures |Others(chosen, k)| == k - n
  {
    var s := Others(chosen, k);
    OthersDistinct(chosen, k);
    DistinctElements(s);
    DistinctElements(chosen);
    assert Elements(s) + Elements(chosen) == Below(k);
    assert Elements(s) !! Elements(chosen);
  }

  /** Every square submatrix of an MDS coding matrix is nonsingular: data that lives in n chosen
      columns and that n chosen rows send to zero is zero. */
  lemma {:induction false} SquareSubmatrix(f: Field, a: seq<seq<nat>>, m: nat, k: nat, n: nat,
      chosenRows: seq<nat>, chosenCols: seq<nat>, v: seq<nat>)
    requires f.Valid() && Matrix(f, a, m, k) && MDS(f, Generator(a, k), k + m, k)
    requires Selection(chosenRows, n, m) && Selection(chosenCols, n, k) && Vector(f, v, k)
    requires forall c :: 0 <= c < k && c !in chosenCols ==> v[c] == 0
    requires forall t :: 0 <= t < n ==> Dot(f, a[chosenRows[t]], v) == 0
    ensures Zero(v)
  {
    hide Mul, Xor, Dot;
    var g, rest := Generator(a, k), Others(chosenCols, k);
    OthersCount(chosenCols, n, k);
    var devices := rest + seq(n, t requires 0 <= t < n => k + chosenRows[t]);
    ChoiceIsSelection(rest, chosenRows, chosenCols, m, k, n, devices);
    forall t | 0 <= t < k
      ensures Dot(f, g[devices[t]], v) == 0
    {
      if t < |rest| {
        assert rest[t] in rest;
        DotUnit(f, v, rest[t], k);
      }
    }
    assert Kills(f, g, devices, v);
  }

  lemma {:induction false} ChoiceIsSelection(rest: seq<nat>, chosenRows: seq<nat>, chosenCols: seq<nat>, m: nat, k: nat, n: nat, devices: seq<nat>)
    requires rest == Others(chosenCols, k) && |rest| == k - n && n <= k && Selection(chosenRows, n, m)
    requires devices == rest + seq(n, t requires 0 <= t < n => k + chosenRows[t])
    ensures Selection(devices, k, k + m)
  {
    OthersDistinct(chosenCols, k);
    forall t | 0 <= t < k
      ensures devices[t] < k + m && (t < |rest| ==> devices[t] < k)
    {
      if t < |rest| { assert rest[t] in rest; }
    }
  }
}
