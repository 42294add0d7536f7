/** The textbook product in GF(2^w): multiply two polynomials over GF(2) without carries, divide by
    the modulus, keep the remainder.  Words are polynomials whose coefficient of x^i is bit i. */
module PolynomialRemainder {
  import opened Words
  import opened GaloisField

  /** Carry-less product. */
  function Product(x: nat, y: nat): nat {
    if x == 0 then 0 else Xor(if x % 2 == 1 then y else 0, 2 * Product(x / 2, y))
  }

  /** x^w plus the low w coefficients of prim_poly[w]. */
  function Modulus(f: Field): nat {
    Xor(Pow2(f.w), Low(f.poly, f.w))
  }

  lemma {:induction false} ProductDouble(x: nat, y: nat)
    ensures Product(x, 2 * y) == 2 * Product(x, y)
  {
    if x > 0 {
      ProductDouble(x / 2, y);
      Double(if x % 2 == 1 then y else 0, 2 * Product(x / 2, y));
    }
  }

  lemma {:induction false} ProductXorLeft(a: nat, b: nat, y: nat)
    ensures Product(Xor(a, b), y) == Xor(Product(a, y), Product(b, y))
    decreases a + b
  {
    if a == 0 || b == 0 {
      XorZero(a); XorZero(b); XorZero(Product(a, y)); XorZero(Product(b, y));
    } else {
      XorHalves(a, b);
      ProductXorLeft(a / 2, b / 2, y);
      var pa, pb := Product(a / 2, y), Product(b / 2, y);
      Double(pa, pb);
      XorGuarded(y, a % 2 == 1, b % 2 == 1);
      XorSwap(if a % 2 == 1 then y else 0, 2 * pa, if b % 2 == 1 then y else 0, 2 * pb);
      if Xor(a, b) == 0 { XorZeroIsEqual(a, b); XorZero(Product(a, y)); }
    }
  }

  lemma {:induction false} ProductXorRight(x: nat, a: nat, b: nat)
    ensures Product(x, Xor(a, b)) == Xor(Product(x, a), Product(x, b))
  {
    if x == 0 {
      XorZero(0);
    } else {
      ProductXorRight(x / 2, a, b);
      Double(Product(x / 2, a), Product(x / 2, b));
      XorZero(0);
      XorSwap(if x % 2 == 1 then a else 0, 2 * Product(x / 2, a),
              if x % 2 == 1 then b else 0, 2 * Product(x / 2, b));
    }
  }

  /** Doubling y as a polynomial differs from one step by the modulus, if the top bit was set. */
  lemma {:induction false} DoubleIsStep(f: Field, y: nat)
    requires f.Valid() && f.Has(y)
    ensures 2 * y == Xor(Step(f, y), if Bit(y, f.w - 1) then Modulus(f) else 0)
  {
    var p := Low(f.poly, f.w);
    var l := Low(2 * y, f.w);
    StepForm(f, y);
    LowSmall(2 * y, f.w + 1);
    LowStep(2 * y, f.w);
    assert Bit(2 * y, f.w) == Bit(y, f.w - 1);
    if Bit(y, f.w - 1) {
      XorComm(Pow2(f.w), p);
      XorAssoc(l, p, Xor(p, Pow2(f.w)));
      XorCancel(p, Pow2(f.w));
    } else {
      XorZero(l);
    }
  }

  /** Mul(f, x, y) is a remainder of the product of x and y on division by the modulus. */
  lemma {:induction false} MulIsRemainder(f: Field, x: nat, y: nat) returns (q: nat)
    requires f.Valid() && f.Has(y)
    ensures Product(x, y) == Xor(Product(q, Modulus(f)), Mul(f, x, y))
    ensures f.Has(Mul(f, x, y))
  {
    MulHas(f, x, y);
    q := 0;
    if x == 0 {
      XorZero(0);
    } else {
      var m, h, s, top := Modulus(f), x / 2, Step(f, y), Bit(y, f.w - 1);
      StepForm(f, y);
      var q' := MulIsRemainder(f, h, s);
      var t := if top then h else 0;
      q := Xor(q', t);
      var low, rest := if x % 2 == 1 then y else 0, Mul(f, h, s);
      calc {
        2 * Product(h, y);
      ==  { ProductDouble(h, y); DoubleIsStep(f, y); ProductXorRight(h, s, if top then m else 0); }
        Xor(Product(h, s), Product(h, if top then m else 0));
      ==  { ProductOfZero(h); }
        Xor(Xor(Product(q', m), rest), Product(t, m));
      ==  { XorAssoc(Product(q', m), rest, Product(t, m)); XorComm(rest, Product(t, m));
            XorAssoc(Product(q', m), Product(t, m), rest); ProductXorLeft(q', t, m); }
        Xor(Product(q, m), rest);
      }
      XorAssoc(low, Product(q, m), rest);
      XorComm(low, Product(q, m));
      XorAssoc(Product(q, m), low, rest);
    }
  }

  lemma {:induction false} ProductOfZero(x: nat)
    ensures Product(x, 0) == 0
  {
    if x > 0 { ProductOfZero(x / 2); XorZero(0); }
  }

  /** Division leaves only one quotient and one remainder. */
  lemma {:induction false} RemainderUnique(f: Field, q: nat, r: nat, q': nat, r': nat)
    requires f.Has(r) && f.Has(r')
    requires Xor(Product(q, Modulus(f)), r) == Xor(Product(q', Modulus(f)), r')
    ensures q == q' && r == r'
  {
    var m := Modulus(f);
    var a, b := Product(q, m), Product(q', m);
    XorSwap(a, r, b, r');
    XorZero(Xor(a, r));
    XorZeroIsEqual(Xor(a, b), Xor(r, r'));
    ProductXorLeft(q, q', m);
    XorBound(r, r', f.w);
    if Xor(q, q') != 0 { MultipleIsLarge(f, Xor(q, q')); }
    XorZeroIsEqual(q, q');
    XorZeroIsEqual(r, r');
  }

  lemma ModulusBounds(f: Field)
    ensures Pow2(f.w) <= Modulus(f) < Pow2(f.w + 1)
  {
    var p := Low(f.poly, f.w);
    XorBound(Pow2(f.w), p, f.w + 1);
    XorComm(Pow2(f.w), p);
    XorStaysLarge(p, Pow2(f.w), f.w);
  }

  lemma {:induction false} XorStaysLarge(a: nat, b: nat, n: nat)
    requires a < Pow2(n) <= b
    ensures Xor(a, b) >= Pow2(n)
  {
    XorCancel(a, b);
    if Xor(a, b) < Pow2(n) { XorBound(a, Xor(a, b), n); }
  }

  lemma {:induction false} MultipleIsLarge(f: Field, e: nat)
    requires e != 0
    ensures Product(e, Modulus(f)) >= Pow2(f.w)
  {
    var m := Modulus(f);
    ModulusBounds(f);
    if e == 1 {
      XorZero(m);
    } else {
      MultipleIsLarge(f, e / 2);
      XorStaysLarge(if e % 2 == 1 then m else 0, 2 * Product(e / 2, m), f.w + 1);
    }
  }
}
