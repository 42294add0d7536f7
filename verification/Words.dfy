/** Words as natural numbers.
    A C `int` holding a field element, a bit set or a matrix row is the number its bits write, so
    `x ^ y` is Xor(x, y), `x & (1 << i)` is Bit(x, i), `x & ((1 << n) - 1)` is Low(x, n), and
    `1 << i` is Pow2(i).  A word of n bits is a number below Pow2(n). */
module Words {

  function Pow2(n: nat): (p: nat)
    ensures p > 0
  {
    if n == 0 then 1 else 2 * Pow2(n - 1)
  }

  function Xor(x: nat, y: nat): nat
    decreases x + y
  {
    if x == 0 && y == 0 then 0 else (if x % 2 == y % 2 then 0 else 1) + 2 * Xor(x / 2, y / 2)
  }

  predicate Bit(x: nat, i: nat) {
    if i == 0 then x % 2 == 1 else Bit(x / 2, i - 1)
  }

  function Low(x: nat, n: nat): (r: nat)
    ensures r < Pow2(n)
  {
    if n == 0 then 0 else x % 2 + 2 * Low(x / 2, n - 1)
  }

  /** `x & (1 << i)` as a word. */
  function BitWord(x: nat, i: nat): nat {
    if Bit(x, i) then Pow2(i) else 0
  }

  // ---------- Xor is a commutative group operation in which every word is its own inverse ----------

  lemma {:induction false} XorHalves(x: nat, y: nat)
    ensures Xor(x, y) % 2 == if x % 2 == y % 2 then 0 else 1
    ensures Xor(x, y) / 2 == Xor(x / 2, y / 2)
  {}

  lemma {:induction false} XorZero(x: nat)
    ensures Xor(x, 0) == x && Xor(0, x) == x && Xor(x, x) == 0
  {
    if x > 0 { XorZero(x / 2); }
  }

  lemma {:induction false} XorComm(x: nat, y: nat)
    ensures Xor(x, y) == Xor(y, x)
    decreases x + y
  {
    if x + y > 0 { XorComm(x / 2, y / 2); }
  }

  lemma {:induction false} XorAssoc(x: nat, y: nat, z: nat)
    ensures Xor(Xor(x, y), z) == Xor(x, Xor(y, z))
    decreases x + y + z
  {
    if x + y + z > 0 {
      XorHalves(x, y);
      XorHalves(y, z);
      XorAssoc(x / 2, y / 2, z / 2);
    }
  }

  /** Regroups two sums column by column. */
  lemma {:induction false} XorSwap(a: nat, b: nat, c: nat, d: nat)
    ensures Xor(Xor(a, b), Xor(c, d)) == Xor(Xor(a, c), Xor(b, d))
  {
    XorAssoc(a, b, Xor(c, d));
    XorAssoc(b, c, d);
    XorComm(b, c);
    XorAssoc(c, b, d);
    XorAssoc(a, c, Xor(b, d));
  }

  lemma {:induction false} XorCancel(x: nat, y: nat)
    ensures Xor(x, Xor(x, y)) == y && Xor(Xor(x, y), y) == x && Xor(Xor(y, x), y) == x
  {
    XorAssoc(x, x, y);
    XorAssoc(x, y, y);
    XorComm(x, y);
    XorZero(x);
    XorZero(y);
  }

  lemma {:induction false} XorZeroIsEqual(x: nat, y: nat)
    ensures Xor(x, y) == 0 <==> x == y
  {
    XorCancel(x, y);
    XorZero(x);
    XorZero(y);
  }

  lemma XorGuarded(p: nat, a: bool, b: bool)
    ensures Xor(if a then p else 0, if b then p else 0) == if a != b then p else 0
  {
    if a || b { XorZero(p); } else { XorZero(0); }
  }

  lemma {:induction false} XorBound(x: nat, y: nat, n: nat)
    requires x < Pow2(n) && y < Pow2(n)
    ensures Xor(x, y) < Pow2(n)
  {
    if n > 0 { XorBound(x / 2, y / 2, n - 1); }
  }

  // ---------- bits ----------

  lemma {:induction false} BitXor(x: nat, y: nat, i: nat)
    ensures Bit(Xor(x, y), i) == (Bit(x, i) != Bit(y, i))
  {
    XorHalves(x, y);
    if i > 0 { BitXor(x / 2, y / 2, i - 1); }
  }

  lemma {:induction false} BitZero(i: nat)
    ensures !Bit(0, i)
  {
    if i > 0 { BitZero(i - 1); }
  }

  lemma {:induction false} BitPow2(i: nat, j: nat)
    ensures Bit(Pow2(j), i) <==> i == j
  {
    if i > 0 && j > 0 { BitPow2(i - 1, j - 1); } else if i > 0 { BitZero(i - 1); }
  }

  lemma {:induction false} BitBeyond(x: nat, n: nat, i: nat)
    requires x < Pow2(n) && n <= i
    ensures !Bit(x, i)
  {
    if n > 0 { BitBeyond(x / 2, n - 1, i - 1); } else { BitZero(i); }
  }

  /** The top bit of an (n+1)-bit word decides whether the word reaches 2^n. */
  lemma {:induction false} TopBit(x: nat, n: nat)
    requires x < Pow2(n + 1)
    ensures Bit(x, n) <==> x >= Pow2(n)
  {
    if n > 0 { TopBit(x / 2, n - 1); }
  }

  /** Two n-bit words with the same bits are the same word. */
  lemma {:induction false} SameBits(x: nat, y: nat, n: nat)
    requires x < Pow2(n) && y < Pow2(n)
    requires forall i: nat :: i < n ==> Bit(x, i) == Bit(y, i)
    ensures x == y
  {
    if n > 0 {
      assert Bit(x, 0) == Bit(y, 0);
      forall i: nat | i < n - 1
        ensures Bit(x / 2, i) == Bit(y / 2, i)
      {
        assert Bit(x, i + 1) == Bit(y, i + 1);
      }
      SameBits(x / 2, y / 2, n - 1);
    }
  }

  lemma {:induction false} NonzeroHasBit(x: nat, n: nat) returns (i: nat)
    requires 0 < x < Pow2(n)
    ensures i < n && Bit(x, i)
  {
    if x % 2 == 1 {
      i := 0;
    } else {
      i := NonzeroHasBit(x / 2, n - 1);
      i := i + 1;
    }
  }

  // ---------- low bits ----------

  lemma {:induction false} LowSmall(x: nat, n: nat)
    requires x < Pow2(n)
    ensures Low(x, n) == x
  {
    if n > 0 { LowSmall(x / 2, n - 1); }
  }

  lemma LowHalves(x: nat, n: nat)
    requires n > 0
    ensures Low(x, n) % 2 == x % 2 && Low(x, n) / 2 == Low(x / 2, n - 1)
  {}

  lemma {:induction false} LowXor(x: nat, y: nat, n: nat)
    ensures Low(Xor(x, y), n) == Xor(Low(x, n), Low(y, n))
  {
    if n > 0 {
      XorHalves(x, y);
      LowHalves(x, n);
      LowHalves(y, n);
      LowHalves(Xor(x, y), n);
      LowXor(x / 2, y / 2, n - 1);
      XorHalves(Low(x, n), Low(y, n));
    }
  }

  lemma {:induction false} LowStep(x: nat, n: nat)
    ensures Low(x, n + 1) == Xor(Low(x, n), BitWord(x, n))
  {
    var b := BitWord(x, n);
    if n == 0 {
      XorZero(b);
    } else {
      LowStep(x / 2, n - 1);
      LowHalves(x, n);
      LowHalves(x, n + 1);
      assert b % 2 == 0 && b / 2 == BitWord(x / 2, n - 1);
      XorHalves(Low(x, n), b);
    }
  }

  lemma {:induction false} LowBit(x: nat, n: nat, i: nat)
    ensures Bit(Low(x, n), i) <==> i < n && Bit(x, i)
  {
    if n == 0 { BitZero(i); } else if i > 0 { LowBit(x / 2, n - 1, i - 1); }
  }

  lemma {:induction false} LowPow2(n: nat)
    ensures Low(Pow2(n), n) == 0
  {
    if n > 0 { LowPow2(n - 1); }
  }

  lemma {:induction false} Pow2Increasing(i: nat, j: nat)
    requires i < j
    ensures Pow2(i) < Pow2(j)
  {
    if i < j - 1 { Pow2Increasing(i, j - 1); }
  }
}
