/** The word sizes 4, 8, 16 and 32: the powers of x modulo prim_poly[w] run through all nonzero words. */
module StandardFields {
  import opened Words
  import opened GaloisField
  import opened PrimitiveElement
  import opened Modular
  import opened MachineProducts
  import opened FullOrder
  import opened PowerProducts
  import Primitive4
  import Primitive8
  import Primitive16
  import Primitive32
  import Raid6

  // ---------- the prime factors ----------

  /** None of the n odd numbers from lo on divides q. */
  predicate NoneDivides(q: nat, lo: nat, n: nat)
    requires lo > 0
    decreases n
  {
    n == 0 || (q % lo != 0 && NoneDivides(q, lo + 2, n - 1))
  }

  lemma {:induction false} NoneDividesAll(q: nat, lo: nat, n: nat, m: nat)
    requires lo % 2 == 1 && NoneDivides(q, lo, n) && lo <= m < lo + 2 * n && m % 2 == 1
    ensures !Divides(m, q)
    decreases n
  {
    if m > lo { NoneDividesAll(q, lo + 2, n - 1, m); }
  }

  /** An odd number without an odd divisor up to its square root is prime. */
  lemma PrimeByOddTrial(q: nat, n: nat)
    requires q % 2 == 1 && q > 1 && (2 * n + 3) * (2 * n + 3) > q
    requires forall m: nat :: 3 <= m < 2 * n + 3 && m % 2 == 1 ==> !Divides(m, q)
    ensures IsPrime(q)
  {
    forall m: nat | 2 <= m < 2 * n + 3
      ensures !Divides(m, q)
    {
      if m % 2 == 0 && Divides(m, q) { ModOfMod(q, 2, m); EvenDivisor(m, q); }
    }
    PrimeByTrial(q, 2 * n + 3);
  }

  lemma EvenDivisor(m: nat, q: nat)
    requires m > 0 && m % 2 == 0 && Divides(m, q)
    ensures q % 2 == 0
  {
    var k, h := q / m, m / 2;
    assert q == k * m && m == 2 * h;
    assert k * (2 * h) == (k * h) * 2 + 0;
    ModUnique(q, k * h, 0, 2);
  }

  lemma SmallFermatPrimes()
    ensures IsPrime(3) && IsPrime(5) && IsPrime(17) && IsPrime(257)
  {
    hide IsPrime;
    Trial257();
    forall m: nat | 3 <= m < 17 && m % 2 == 1
      ensures !Divides(m, 257)
    {
      NoneDividesAll(257, 3, 7, m);
    }
    PrimeByOddTrial(3, 0);
    PrimeByOddTrial(5, 0);
    assert !Divides(3, 17);
    PrimeByOddTrial(17, 1);
    PrimeByOddTrial(257, 7);
  }

  lemma Trial257()
    ensures NoneDivides(257, 3, 7)
  {}

  lemma LastFermatPrime()
    ensures IsPrime(65537)
  {
    hide IsPrime, NoneDivides;
    Trial1(); Trial2(); Trial3(); Trial4(); Trial5(); Trial6(); Trial7(); Trial8(); Trial9(); Trial10(); Trial11(); Trial12();
    forall m: nat | 3 <= m < 257 && m % 2 == 1
      ensures !Divides(m, 65537)
    {
      if m < 25 { NoneDividesAll(65537, 3, 11, m); }
      else if m < 47 { NoneDividesAll(65537, 25, 11, m); }
      else if m < 69 { NoneDividesAll(65537, 47, 11, m); }
      else if m < 91 { NoneDividesAll(65537, 69, 11, m); }
      else if m < 113 { NoneDividesAll(65537, 91, 11, m); }
      else if m < 135 { NoneDividesAll(65537, 113, 11, m); }
      else if m < 157 { NoneDividesAll(65537, 135, 11, m); }
      else if m < 179 { NoneDividesAll(65537, 157, 11, m); }
      else if m < 201 { NoneDividesAll(65537, 179, 11, m); }
      else if m < 223 { NoneDividesAll(65537, 201, 11, m); }
      else if m < 245 { NoneDividesAll(65537, 223, 11, m); }
      else { NoneDividesAll(65537, 245, 6, m); }
    }
    PrimeByOddTrial(65537, 127);
  }

  lemma Trial1()
    ensures NoneDivides(65537, 3, 11)
  {}

  lemma Trial2()
    ensures NoneDivides(65537, 25, 11)
  {}

  lemma Trial3()
    ensures NoneDivides(65537, 47, 11)
  {}

  lemma Trial4()
    ensures NoneDivides(65537, 69, 11)
  {}

  lemma Trial5()
    ensures NoneDivides(65537, 91, 11)
  {}

  lemma Trial6()
    ensures NoneDivides(65537, 113, 11)
  {}

  lemma Trial7()
    ensures NoneDivides(65537, 135, 11)
  {}

  lemma Trial8()
    ensures NoneDivides(65537, 157, 11)
  {}

  lemma Trial9()
    ensures NoneDivides(65537, 179, 11)
  {}

  lemma Trial10()
    ensures NoneDivides(65537, 201, 11)
  {}

  lemma Trial11()
    ensures NoneDivides(65537, 223, 11)
  {}

  lemma Trial12()
    ensures NoneDivides(65537, 245, 6)
  {}

  // ---------- the four word sizes ----------

  lemma OneHotTwice(t: bv33, i: nat)
    requires OneHot(t, i) && Small(t)
    ensures OneHot(Twice(t), i + 1)
  {
    hide Half, LastBit, Twice;
    HalfTwice(t);
  }

  lemma TopBits()
    ensures OneHot(0x8, 3) && OneHot(0x80, 7) && OneHot(0x8000, 15) && OneHot(0x8000_0000, 31)
  {
    LowTopBits();
    EightMore(0x80, 7, 0x8000);
    EightMore(0x8000, 15, 0x80_0000);
    EightMore(0x80_0000, 23, 0x8000_0000);
  }

  lemma LowTopBits()
    ensures OneHot(0x8, 3) && OneHot(0x80, 7)
  {}

  lemma EightMore(t: bv33, i: nat, u: bv33)
    requires OneHot(t, i) && t <= 0x80_0000 && u == t << 8
    ensures OneHot(u, i + 8)
  {
    hide OneHot;
    var a, b, c, d := Twice(t), Twice(Twice(t)), Twice(Twice(Twice(t))), Twice(Twice(Twice(Twice(t))));
    var a', b', c', d' := Twice(d), Twice(Twice(d)), Twice(Twice(Twice(d))), Twice(Twice(Twice(Twice(d))));
    OneHotTwice(t, i); OneHotTwice(a, i + 1); OneHotTwice(b, i + 2); OneHotTwice(c, i + 3);
    OneHotTwice(d, i + 4); OneHotTwice(a', i + 5); OneHotTwice(b', i + 6); OneHotTwice(c', i + 7);
  }

  // ---------- the moduli on machine words ----------

  lemma Suits4()
    ensures Suits(StandardField(4), Primitive4.M)
  {
    hide OneHot, Clears, Val, Low;
    TopBits();
    LowWord4();
    Primitive4.ModulusClears();
  }

  lemma Suits8()
    ensures Suits(StandardField(8), Primitive8.M)
  {
    hide OneHot, Clears, Val, Low;
    TopBits();
    Word8();
    LowWord8();
    Primitive8.ModulusClears();
  }

  lemma Suits16()
    ensures Suits(StandardField(16), Primitive16.M)
  {
    hide OneHot, Clears, Val, Low;
    TopBits();
    Word16();
    LowWord16();
    Primitive16.ModulusClears();
  }

  lemma LowWord4()
    ensures Val(0x13, 4) == 3 == Low(0x13, 4)
  {}

  lemma Word8Top4()
    ensures Val(0x11, 4) == 0x1
  {}

  lemma Word8()
    ensures Val(0x11d, 8) == 0x1d
  {
    Word8Top4();
  }

  lemma Word16Top4()
    ensures Val(0x11, 4) == 0x1
  {}

  lemma Word16Top8()
    ensures Val(0x110, 8) == 0x10
  {
    Word16Top4();
  }

  lemma Word16Top12()
    ensures Val(0x1100, 12) == 0x100
  {
    Word16Top8();
  }

  lemma Word16()
    ensures Val(0x1_100b, 16) == 0x100b
  {
    Word16Top12();
  }

  lemma Word32Top4()
    ensures Val(0x10, 4) == 0x0
  {}

  lemma Word32Top8()
    ensures Val(0x100, 8) == 0x0
  {
    Word32Top4();
  }

  lemma Word32Top12()
    ensures Val(0x1004, 12) == 0x4
  {
    Word32Top8();
  }

  lemma Word32Top16()
    ensures Val(0x1_0040, 16) == 0x40
  {
    Word32Top12();
  }

  lemma Word32Top20()
    ensures Val(0x10_0400, 20) == 0x400
  {
    Word32Top16();
  }

  lemma Word32Top24()
    ensures Val(0x100_4000, 24) == 0x4000
  {
    Word32Top20();
  }

  lemma Word32Top28()
    ensures Val(0x1004_0000, 28) == 0x4_0000
  {
    Word32Top24();
  }

  lemma Word32()
    ensures Val(0x1_0040_0007, 32) == 0x40_0007
  {
    Word32Top28();
  }

  lemma LowWord8()
    ensures Low(0x11d, 8) == 0x1d
  {
    hide Low;
    Orders();
    LowBeyond(0x1d, 8);
  }

  lemma {:induction false} LowBeyond(x: nat, n: nat)
    requires x < Pow2(n)
    ensures Low(x + Pow2(n), n) == x
  {
    if n > 0 { LowBeyond(x / 2, n - 1); }
  }

  lemma LowWord16()
    ensures Low(0x1_100b, 16) == 0x100b
  {
    hide Low;
    Orders();
    LowBeyond(0x100b, 16);
  }

  lemma LowWord32()
    ensures Low(0x40_0007, 32) == 0x40_0007
  {
    hide Low;
    Orders();
    LowSmall(0x40_0007, 32);
  }

  lemma Suits32()
    ensures Suits(StandardField(32), Primitive32.M)
  {
    hide OneHot, Clears, Val, Low;
    TopBits();
    Word32();
    LowWord32();
    Primitive32.ModulusClears();
  }

  // ---------- the four word sizes ----------

  lemma Standard4()
    ensures NoCollision(StandardField(4))
  {
    hide Power, IsPrime, NoCollision, Val, Suits, IsPower, Product;
    var f := StandardField(4);
    Orders();
    SmallFermatPrimes();
    Suits4();
    FirstPowers(f);
    Primitive4.TestAt5(f);
    Primitive4.TestAt3(f);
    PowerIsOne(f, 15);
    ProductIs4();
    FullOrderNoCollision(f, [5, 3]);
  }

  lemma ProductIs4()
    ensures Product([5, 3]) == 15
  {
    assert [5, 3][..1] == [5];
    assert [5][..0] == [];
  }

  lemma Standard8()
    ensures NoCollision(StandardField(8))
  {
    hide Power, IsPrime, NoCollision, Val, Suits, IsPower, Product;
    var f := StandardField(8);
    Orders();
    SmallFermatPrimes();
    Suits8();
    FirstPowers(f);
    Primitive8.TestAt17(f);
    Primitive8.TestAt5(f);
    Primitive8.TestAt3(f);
    PowerIsOne(f, 255);
    ProductIs8();
    FullOrderNoCollision(f, [17, 5, 3]);
  }

  lemma ProductIs8()
    ensures Product([17, 5, 3]) == 255
  {
    assert [17, 5, 3][..2] == [17, 5];
    assert [17, 5][..1] == [17];
    assert [17][..0] == [];
  }

  lemma Standard16()
    ensures NoCollision(StandardField(16))
  {
    hide Power, IsPrime, NoCollision, Val, Suits, IsPower, Product;
    var f := StandardField(16);
    Orders();
    SmallFermatPrimes();
    Suits16();
    FirstPowers(f);
    Primitive16.TestAt257(f);
    Primitive16.TestAt17(f);
    Primitive16.TestAt5(f);
    Primitive16.TestAt3(f);
    PowerIsOne(f, 65535);
    ProductIs16();
    FullOrderNoCollision(f, [257, 17, 5, 3]);
  }

  lemma ProductIs16()
    ensures Product([257, 17, 5, 3]) == 65535
  {
    assert [257, 17, 5, 3][..3] == [257, 17, 5];
    assert [257, 17, 5][..2] == [257, 17];
    assert [257, 17][..1] == [257];
    assert [257][..0] == [];
  }

  lemma Standard32()
    ensures NoCollision(StandardField(32))
  {
    hide Power, IsPrime, NoCollision, Val, Suits, IsPower, Product;
    var f := StandardField(32);
    Orders();
    LastFermatPrime();
    SmallFermatPrimes();
    Suits32();
    FirstPowers(f);
    Primitive32.TestAt65537(f);
    Primitive32.TestAt257(f);
    Primitive32.TestAt17(f);
    Primitive32.TestAt5(f);
    Primitive32.TestAt3(f);
    PowerIsOne(f, 4294967295);
    ProductIs32();
    FullOrderNoCollision(f, [65537, 257, 17, 5, 3]);
  }

  lemma ProductIs32()
    ensures Product([65537, 257, 17, 5, 3]) == 4294967295
  {
    assert [65537, 257, 17, 5, 3][..4] == [65537, 257, 17, 5];
    assert [65537, 257, 17, 5][..3] == [65537, 257, 17];
    assert [65537, 257, 17][..2] == [65537, 257];
    assert [65537, 257][..1] == [65537];
    assert [65537][..0] == [];
  }

  lemma PowerIsOne(f: Field, e: nat)
    requires f.Valid() && f.w >= 2 && IsPower(f, e, 1)
    ensures Power(f, e) == 1
  {
    hide Power, Val;
    ValSmall(f.w);
  }

  lemma Orders()
    ensures Pow2(4) == 16 && Pow2(8) == 256 && Pow2(16) == 65536 && Pow2(32) == 4294967296
  {
    assert Pow2(12) == 4096;
    assert Pow2(20) == 1048576;
    assert Pow2(28) == 268435456;
  }

  /** For these word sizes the log-table loop of galois.c finishes, and the words form a field. */
  lemma StandardIsField(w: nat)
    requires w == 4 || w == 8 || w == 16 || w == 32
    ensures NoCollision(StandardField(w)) && IsField(StandardField(w))
  {
    hide NoCollision, IsField;
    if w == 4 { Standard4(); } else if w == 8 { Standard8(); } else if w == 16 { Standard16(); } else { Standard32(); }
    TablesMakeField(StandardField(w));
  }

  /** With the polynomials of galois.c RAID-6 recovers exactly for fewer than 2^w data devices. */
  lemma StandardRaid6(w: nat, k: nat)
    requires w == 8 || w == 16 || w == 32
    ensures Raid6.R6Recovers(StandardField(w), k) <==> k < Pow2(w)
  {
    hide NoCollision, IsField, Raid6.R6Recovers;
    StandardIsField(w);
    Raid6.TablesServeRaid6(StandardField(w), k);
  }

  // ---------- the polynomials, term by term ----------

  /** 2^0, ..., 2^31. */
  lemma PowersOfTwo()
    ensures Pow2(0) == 0x1 && Pow2(1) == 0x2 && Pow2(2) == 0x4 && Pow2(3) == 0x8
    ensures Pow2(4) == 0x10 && Pow2(5) == 0x20 && Pow2(6) == 0x40 && Pow2(7) == 0x80
    ensures Pow2(8) == 0x100 && Pow2(9) == 0x200 && Pow2(10) == 0x400 && Pow2(11) == 0x800
    ensures Pow2(12) == 0x1000 && Pow2(13) == 0x2000 && Pow2(14) == 0x4000 && Pow2(15) == 0x8000
    ensures Pow2(16) == 0x1_0000 && Pow2(17) == 0x2_0000 && Pow2(18) == 0x4_0000 && Pow2(19) == 0x8_0000
    ensures Pow2(20) == 0x10_0000 && Pow2(21) == 0x20_0000 && Pow2(22) == 0x40_0000 && Pow2(23) == 0x80_0000
    ensures Pow2(24) == 0x100_0000 && Pow2(25) == 0x200_0000 && Pow2(26) == 0x400_0000 && Pow2(27) == 0x800_0000
    ensures Pow2(28) == 0x1000_0000 && Pow2(29) == 0x2000_0000 && Pow2(30) == 0x4000_0000 && Pow2(31) == 0x8000_0000
  {
    assert Pow2(10) == 0x400;
    assert Pow2(20) == 0x10_0000;
    assert Pow2(30) == 0x4000_0000;
  }

  /** prim_poly[1], ..., prim_poly[8] by their exponents. */
  lemma Polynomials1To8()
    ensures StandardField(1).poly == Pow2(0)
    ensures StandardField(2).poly == Pow2(2) + Pow2(1) + Pow2(0)
    ensures StandardField(3).poly == Pow2(3) + Pow2(1) + Pow2(0)
    ensures StandardField(4).poly == Pow2(4) + Pow2(1) + Pow2(0)
    ensures StandardField(5).poly == Pow2(5) + Pow2(2) + Pow2(0)
    ensures StandardField(6).poly == Pow2(6) + Pow2(1) + Pow2(0)
    ensures StandardField(7).poly == Pow2(7) + Pow2(3) + Pow2(0)
    ensures StandardField(8).poly == Pow2(8) + Pow2(4) + Pow2(3) + Pow2(2) + Pow2(0)
  {
    hide Pow2;
    PowersOfTwo();
  }

  /** prim_poly[9], ..., prim_poly[16] by their exponents. */
  lemma Polynomials9To16()
    ensures StandardField(9).poly == Pow2(9) + Pow2(4) + Pow2(0)
    ensures StandardField(10).poly == Pow2(10) + Pow2(3) + Pow2(0)
    ensures StandardField(11).poly == Pow2(11) + Pow2(2) + Pow2(0)
    ensures StandardField(12).poly == Pow2(12) + Pow2(6) + Pow2(4) + Pow2(1) + Pow2(0)
    ensures StandardField(13).poly == Pow2(13) + Pow2(4) + Pow2(3) + Pow2(1) + Pow2(0)
    ensures StandardField(14).poly == Pow2(14) + Pow2(10) + Pow2(6) + Pow2(1) + Pow2(0)
    ensures StandardField(15).poly == Pow2(15) + Pow2(1) + Pow2(0)
    ensures StandardField(16).poly == Pow2(16) + Pow2(12) + Pow2(3) + Pow2(1) + Pow2(0)
  {
    hide Pow2;
    PowersOfTwo();
  }

  /** prim_poly[17], ..., prim_poly[24] by their exponents. */
  lemma Polynomials17To24()
    ensures StandardField(17).poly == Pow2(17) + Pow2(3) + Pow2(0)
    ensures StandardField(18).poly == Pow2(18) + Pow2(7) + Pow2(0)
    ensures StandardField(19).poly == Pow2(19) + Pow2(5) + Pow2(2) + Pow2(1) + Pow2(0)
    ensures StandardField(20).poly == Pow2(20) + Pow2(3) + Pow2(0)
    ensures StandardField(21).poly == Pow2(21) + Pow2(2) + Pow2(0)
    ensures StandardField(22).poly == Pow2(22) + Pow2(1) + Pow2(0)
    ensures StandardField(23).poly == Pow2(23) + Pow2(5) + Pow2(0)
    ensures StandardField(24).poly == Pow2(24) + Pow2(7) + Pow2(2) + Pow2(1) + Pow2(0)
  {
    hide Pow2;
    PowersOfTwo();
  }

  /** prim_poly[25], ..., prim_poly[32] by their exponents; the leading one of w = 32 does not fit the word. */
  lemma Polynomials25To32()
    ensures StandardField(25).poly == Pow2(25) + Pow2(3) + Pow2(0)
    ensures StandardField(26).poly == Pow2(26) + Pow2(6) + Pow2(2) + Pow2(1) + Pow2(0)
    ensures StandardField(27).poly == Pow2(27) + Pow2(5) + Pow2(2) + Pow2(1) + Pow2(0)
    ensures StandardField(28).poly == Pow2(28) + Pow2(3) + Pow2(0)
    ensures StandardField(29).poly == Pow2(29) + Pow2(2) + Pow2(0)
    ensures StandardField(30).poly == Pow2(30) + Pow2(23) + Pow2(2) + Pow2(1) + Pow2(0)
    ensures StandardField(31).poly == Pow2(31) + Pow2(3) + Pow2(0)
    ensures StandardField(32).poly == Pow2(22) + Pow2(2) + Pow2(1) + Pow2(0)
  {
    hide Pow2;
    PowersOfTwo();
  }
}
