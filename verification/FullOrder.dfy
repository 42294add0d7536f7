/** When the powers of x run through all nonzero words: the order of x is tested at the prime factors of 2^w - 1. */
module FullOrder {
  import opened Words
  import opened GaloisField
  import opened PrimitiveElement
  import opened Modular

  function Product(s: seq<nat>): nat {
    if s == [] then 1 else Product(s[..|s| - 1]) * s[|s| - 1]
  }

  /** A divisor of a product of primes, other than 1, is divisible by one of them. */
  lemma {:induction false} PrimeFactor(m: nat, s: nat, primes: seq<nat>) returns (i: nat)
    requires m > 1 && m * s == Product(primes) && forall l :: 0 <= l < |primes| ==> IsPrime(primes[l])
    ensures i < |primes| && primes[i] > 0 && m % primes[i] == 0
    decreases |primes|
  {
    hide IsPrime;
    NoUnit(m, s);
    var last := |primes| - 1;
    var q, rest := primes[last], primes[..last];
    PrimeBasics(q);
    if m % q == 0 {
      i := last;
    } else {
      var s' := PrimeMisses(m, s, q, Product(rest));
      i := PrimeFactor(m, s', rest);
    }
  }

  lemma NoUnit(m: nat, s: nat)
    requires m > 1
    ensures m * s != 1
  {
    NonNegative(m - 2, s);
    assert m * s == (m - 2) * s + 2 * s;
  }

  lemma PrimeBasics(q: nat)
    requires IsPrime(q)
    ensures q > 1 && forall d: nat :: 0 < d < q ==> Generates(d, q)
  {}

  /** A prime that divides m * s but not m divides s. */
  lemma PrimeMisses(m: nat, s: nat, q: nat, p: nat) returns (s': nat)
    requires IsPrime(q) && m * s == p * q && m % q != 0
    ensures m * s' == p
  {
    hide IsPrime;
    PrimeBasics(q);
    var d := m % q;
    assert m * s == p * q + 0;
    ModUnique(m * s, p, 0, q);
    ModMul(s, m, q);
    assert s * m == m * s;
    CancelFactor(s, d, q);
    s' := s / q;
    assert s == s' * q;
    SameProduct(m, s', p, q);
  }

  lemma SameProduct(m: nat, s: nat, p: nat, q: nat)
    requires q > 0 && m * (s * q) == p * q
    ensures m * s == p
  {
    assert m * (s * q) == (m * s) * q;
    assert (m * s - p) * q == 0;
  }

  /** A number without a divisor up to its square root is prime. */
  lemma PrimeByTrial(q: nat, b: nat)
    requires q >= 2 && b * b > q && NoDivisorBelow(q, b)
    ensures IsPrime(q)
  {
    forall m: nat | 2 <= m < q
      ensures !Divides(m, q)
    {
      if Divides(m, q) {
        var k := q / m;
        assert q == k * m;
        if m >= b {
          Cofactor(m, k, q, b);
          assert q == m * k + 0;
          ModUnique(q, m, 0, k);
          assert Divides(k, q);
        }
      }
    }
  }

  lemma Cofactor(m: nat, k: nat, q: nat, b: nat)
    requires q == k * m && 2 <= b <= m < q < b * b
    ensures 2 <= k < b
  {
    NonNegative(m - b, b);
    assert k * m == (k - b) * m + (m - b) * b + b * b;
    if k >= b { NonNegative(k - b, m); }
    assert 0 * m == 0 && 1 * m == m;
  }

  // ---------- exponents at which the power is 1 ----------

  lemma PowerOne(f: Field, a: nat, b: nat)
    requires f.Valid() && Power(f, a) == 1
    ensures Power(f, a + b) == Power(f, b)
  {
    hide Power, Mul;
    PowerMul(f, a, b);
    PowerHas(f, b);
    MulOne(f, Power(f, b));
  }

  lemma {:induction false} PowerMultiple(f: Field, a: nat, n: nat)
    requires f.Valid() && Power(f, a) == 1
    ensures Power(f, a * n) == 1
  {
    hide Power;
    if n == 0 {
      PowerNone(f);
      assert a * 0 == 0;
    } else {
      PowerMultiple(f, a, n - 1);
      assert a + a * (n - 1) == a * n;
      PowerOne(f, a, a * (n - 1));
    }
  }

  lemma PowerNone(f: Field)
    requires f.Valid()
    ensures Power(f, 0) == 1
  {}

  /** The exponents are closed under the greatest common divisor. */
  lemma {:induction false} CommonDivisor(f: Field, a: nat, b: nat) returns (g: nat, u: nat, v: nat)
    requires f.Valid() && 0 < a && 0 < b && Power(f, a) == 1 && Power(f, b) == 1
    ensures 0 < g <= a && Power(f, g) == 1 && a == g * u && b == g * v
    decreases a + b
  {
    hide Power;
    if a == b {
      g, u, v := a, 1, 1;
    } else if a < b {
      PowerOne(f, a, b - a);
      g, u, v := CommonDivisor(f, a, b - a);
      assert b == g * (u + v);
      v := u + v;
    } else {
      PowerOne(f, b, a - b);
      g, u, v := CommonDivisor(f, a - b, b);
      assert a == g * (u + v);
      u := u + v;
    }
  }

  /** Equal powers, one of them later, leave a power that is 1. */
  lemma {:induction false} BackToOne(f: Field, i: nat, j: nat, k: nat)
    requires f.Valid() && Odd(f) && Power(f, i + j) == Power(f, i + k)
    ensures Power(f, j) == Power(f, k)
  {
    hide Power, Step;
    if i > 0 {
      PowerHas(f, i - 1 + j);
      PowerHas(f, i - 1 + k);
      PowerNext(f, i - 1 + j);
      PowerNext(f, i - 1 + k);
      StepInjective(f, Power(f, i - 1 + j), Power(f, i - 1 + k));
      BackToOne(f, i - 1, j, k);
    }
  }

  lemma PowerNext(f: Field, i: nat)
    requires f.Valid()
    ensures Power(f, i + 1) == Step(f, Power(f, i))
  {}

  /** An exponent below n at which the power is 1 leaves another one at some n / q. */
  lemma SmallerExponent(f: Field, n: nat, e: nat, primes: seq<nat>) returns (l: nat)
    requires f.Valid() && 0 < e < n && Power(f, e) == 1 && Power(f, n) == 1 && Product(primes) == n
    requires forall l :: 0 <= l < |primes| ==> IsPrime(primes[l])
    ensures l < |primes| && primes[l] > 0 && Power(f, n / primes[l]) == 1
  {
    hide Power, Product, IsPrime;
    var g, u, m := CommonDivisor(f, e, n);
    assert m > 1 by { assert g * 0 == 0 && g * 1 == g; }
    assert m * g == g * m;
    l := PrimeFactor(m, g, primes);
    var q := primes[l];
    Quotients(n, g, m, q);
    PowerMultiple(f, g, m / q);
  }

  lemma Quotients(n: nat, g: nat, m: nat, q: nat)
    requires q > 0 && n == g * m && m % q == 0
    ensures n / q == g * (m / q)
  {
    var k := m / q;
    assert m == k * q;
    assert g * (k * q) == (g * k) * q;
    DivideExact(n, g * k, q);
  }

  /** The test: x to the 2^w - 1 is 1, and to no (2^w - 1) / q for a prime factor q. */
  lemma {:induction false} FullOrderNoCollision(f: Field, primes: seq<nat>)
    requires f.Valid() && Odd(f) && Product(primes) == Order(f) && Power(f, Order(f)) == 1
    requires forall l :: 0 <= l < |primes| ==> IsPrime(primes[l]) && Power(f, Order(f) / primes[l]) != 1
    ensures NoCollision(f)
  {
    hide Power, Product, IsPrime, Order;
    var n := Order(f);
    forall i: nat, j: nat | i < j < n
      ensures Power(f, i) != Power(f, j)
    {
      if Power(f, i) == Power(f, j) {
        BackToOne(f, i, 0, j - i);
        PowerNone(f);
        var l := SmallerExponent(f, n, j - i, primes);
      }
    }
  }

  lemma DivideExact(n: nat, k: nat, q: nat)
    requires q > 0 && n == k * q
    ensures n / q == k
  {
    ModUnique(n, k, 0, q);
    SameProduct(1, n / q, k, q);
  }
}
