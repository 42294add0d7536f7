/** Arithmetic modulo a number, and inverses modulo a prime. */
module Modular {

  predicate Divides(d: nat, n: nat)
    requires d > 0
  {
    n % d == 0
  }

  /** No number from 2 to k - 1 divides w. */
  ghost predicate NoDivisorBelow(w: nat, k: nat) {
    forall m: nat :: 2 <= m < k ==> !Divides(m, w)
  }

  ghost predicate IsPrime(p: nat) {
    p >= 2 && NoDivisorBelow(p, p)
  }

  /** Steps of d reach every residue modulo w, because neither d nor a smaller number divides w. */
  ghost predicate Generates(d: nat, w: nat) {
    0 < d < w && NoDivisorBelow(w, d + 1)
  }

  /** Quotient and remainder are unique. */
  lemma ModUnique(z: int, q: int, r: int, w: int)
    requires w > 0 && 0 <= r < w && z == q * w + r
    ensures z % w == r
  {
    var q', r' := z / w, z % w;
    assert z == q' * w + r';
    assert (q' - q) * w == r - r';
    if q' > q {
      assert (q' - q) * w == w + (q' - q - 1) * w;
      NonNegative(q' - q - 1, w);
    } else if q' < q {
      assert (q - q') * w == r' - r;
      assert (q - q') * w == w + (q - q' - 1) * w;
      NonNegative(q - q' - 1, w);
    }
  }

  lemma NonNegative(a: int, b: int)
    requires a >= 0 && b >= 0
    ensures a * b >= 0
  {}

  /** Numbers that differ by a multiple of w have the same remainder. */
  lemma ModShift(z: int, k: int, w: int)
    requires w > 0
    ensures (z + k * w) % w == z % w
  {
    var q, r := z / w, z % w;
    assert z + k * w == (q + k) * w + r;
    ModUnique(z + k * w, q + k, r, w);
  }

  lemma ModAdd(y: int, x: int, w: int)
    requires w > 0
    ensures (y + x % w) % w == (y + x) % w
  {
    var q := x / w;
    assert y + x == (y + x % w) + q * w;
    ModShift(y + x % w, q, w);
  }

  lemma ModMul(y: int, x: int, w: int)
    requires w > 0
    ensures (y * (x % w)) % w == (y * x) % w
  {
    var q := x / w;
    assert y * x == y * (x % w) + (y * q) * w by {
      assert x == x % w + q * w;
      assert y * x == y * (x % w) + y * (q * w);
    }
    ModShift(y * (x % w), y * q, w);
  }

  lemma ModSmall(x: int, w: int)
    requires 0 <= x < w
    ensures x % w == x
  {}

  /** Numbers below w with equal remainders are equal, and numbers congruent to 0 are multiples. */
  lemma ModEqual(x: int, y: int, w: int)
    requires w > 0 && x % w == y % w
    ensures (x - y) % w == 0
  {
    var a, b := x / w, y / w;
    assert x - y == (a - b) * w + 0;
    ModUnique(x - y, a - b, 0, w);
  }

  /** Such a d has an inverse modulo w; for a prime every d below it is one. */
  lemma {:induction false} Inverse(d: nat, p: nat) returns (t: nat)
    requires Generates(d, p)
    ensures 0 < t < p && (t * d) % p == 1
    decreases d
  {
    if d == 1 {
      t := 1;
      ModSmall(1, p);
    } else {
      var q, r := p / d, p % d;
      assert !Divides(d, p);
      var s := Inverse(r, p);
      // s r = 1 + m p and r = p - q d, so (p - q) s d = 1 + (m - s + s d) p
      var m := (s * r) / p;
      var u := (p - q) * s;
      assert s * r == m * p + 1;
      InverseStep(p, d, q, r, s, m);
      ModUnique(u * d, m - s + s * d, 1, p);
      t := u % p;
      ModMul(d, u, p);
      assert d * u == u * d && d * t == t * d;
      if t == 0 { ModSmall(0, p); }
    }
  }

  lemma InverseStep(p: int, d: int, q: int, r: int, s: int, m: int)
    requires p == q * d + r && s * r == m * p + 1
    ensures ((p - q) * s) * d == (m - s + s * d) * p + 1
  {
    calc {
      ((p - q) * s) * d;
    ==
      p * (s * d) - (q * d) * s;
    ==  { assert q * d == p - r; }
      p * (s * d) - (p - r) * s;
    ==  { assert (p - r) * s == p * s - s * r; }
      p * (s * d) - p * s + (m * p + 1);
    ==
      (m - s + s * d) * p + 1;
    }
  }

  /** A product that p divides, one factor having an inverse. */
  lemma CancelFactor(x: int, d: nat, p: nat)
    requires Generates(d, p) && (x * d) % p == 0
    ensures x % p == 0
  {
    var t := Inverse(d, p);
    Regroup(t, x, d);
    CancelAt(x, x * d, t, t * d, p);
  }

  lemma CancelAt(x: int, y: int, t: int, u: int, p: int)
    requires p > 1 && y % p == 0 && u % p == 1 && t * y == x * u
    ensures x % p == 0
  {
    ModMul(t, y, p);
    assert t * 0 == 0;
    ModMul(x, u, p);
    assert x * 1 == x;
  }

  /** Reducing modulo a multiple of m first changes nothing modulo m. */
  lemma ModOfMod(x: int, m: nat, w: nat)
    requires 0 < m && w > 0 && Divides(m, w)
    ensures (x % w) % m == x % m
  {
    var n, q := w / m, x / w;
    assert w == n * m;
    assert x == x % w + q * w;
    assert q * w == (q * n) * m;
    ModShift(x % w, q * n, m);
  }

  lemma Regroup(t: int, x: int, d: int)
    ensures t * (x * d) == x * (t * d)
  {
  }
}
