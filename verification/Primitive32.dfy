/** The reduction polynomial that galois.c uses for w = 32 is primitive. */
module Primitive32 {
  import opened Words
  import opened GaloisField
  import opened PrimitiveElement
  import opened MachineProducts
  import opened FullOrder
  import opened PowerProducts

  const M := Modulus(0x1_0040_0007, 0x8000_0000, 0xffff_ffff)

  lemma ModulusClears()
    ensures Clears(M)
  {}

  // ---------- products of powers of x ----------

  lemma Product1()
    ensures Turn32(M, State(0x2, 0x2, 0)).sum == 0x4
  {}

  lemma Product2()
    ensures Turn32(M, State(0x4, 0x4, 0)).sum == 0x10
  {}

  lemma Product3()
    ensures Turn32(M, State(0x10, 0x10, 0)).sum == 0x100
  {}

  lemma Product4()
    ensures Turn32(M, State(0x100, 0x100, 0)).sum == 0x1_0000
  {}

  lemma Product5()
    ensures Turn32(M, State(0x1_0000, 0x1_0000, 0)).sum == 0x40_0007
  {}

  lemma Product6()
    ensures Turn32(M, State(0x40_0007, 0x40_0007, 0)).sum == 0x100_7009
  {}

  lemma Product7()
    ensures Turn32(M, State(0x100_7009, 0x100_7009, 0)).sum == 0x507_0181
  {}

  lemma Product8()
    ensures Turn32(M, State(0x507_0181, 0x507_0181, 0)).sum == 0x1576_5dad
  {}

  lemma Product9()
    ensures Turn32(M, State(0x1576_5dad, 0x1576_5dad, 0)).sum == 0x4627_f291
  {}

  lemma Product10()
    ensures Turn32(M, State(0x4627_f291, 0x4627_f291, 0)).sum == 0x2034_416a
  {}

  lemma Product11()
    ensures Turn32(M, State(0x2034_416a, 0x2034_416a, 0)).sum == 0x5846_0ef3
  {}

  lemma Product12()
    ensures Turn32(M, State(0x5846_0ef3, 0x5846_0ef3, 0)).sum == 0x3789_9219
  {}

  lemma Product13()
    ensures Turn32(M, State(0x3789_9219, 0x3789_9219, 0)).sum == 0xa68_1b81
  {}

  lemma Product14()
    ensures Turn32(M, State(0xa68_1b81, 0xa68_1b81, 0)).sum == 0x50d9_5ac6
  {}

  lemma Product15()
    ensures Turn32(M, State(0x50d9_5ac6, 0x50d9_5ac6, 0)).sum == 0x7718_21cf
  {}

  lemma Product16()
    ensures Turn32(M, State(0x7718_21cf, 0x7718_21cf, 0)).sum == 0x3b30_8ae2
  {}

  lemma Product17()
    ensures Turn32(M, State(0x2, 0x3b30_8ae2, 0)).sum == 0x7661_15c4
  {}

  lemma Product18()
    ensures Turn32(M, State(0x7661_15c4, 0x7661_15c4, 0)).sum == 0x7f27_e1bb
  {}

  lemma Product19()
    ensures Turn32(M, State(0x7f27_e1bb, 0x7f27_e1bb, 0)).sum == 0x3ef0_f542
  {}

  lemma Product20()
    ensures Turn32(M, State(0x3ef0_f542, 0x3ef0_f542, 0)).sum == 0x5fba_11c4
  {}

  lemma Product21()
    ensures Turn32(M, State(0x5fba_11c4, 0x5fba_11c4, 0)).sum == 0x37b6_2710
  {}

  lemma Product22()
    ensures Turn32(M, State(0x37b6_2710, 0x37b6_2710, 0)).sum == 0x1a79_016c
  {}

  lemma Product23()
    ensures Turn32(M, State(0x1a79_016c, 0x1a79_016c, 0)).sum == 0x12dc_c9e0
  {}

  lemma Product24()
    ensures Turn32(M, State(0x12dc_c9e0, 0x12dc_c9e0, 0)).sum == 0x425d_25ac
  {}

  lemma Product25()
    ensures Turn32(M, State(0x425d_25ac, 0x425d_25ac, 0)).sum == 0x2151_32fb
  {}

  lemma Product26()
    ensures Turn32(M, State(0x7661_15c4, 0x2151_32fb, 0)).sum == 0x574_b974
  {}

  lemma Product27()
    ensures Turn32(M, State(0x574_b974, 0x574_b974, 0)).sum == 0x1036_63bc
  {}

  lemma Product28()
    ensures Turn32(M, State(0x1036_63bc, 0x1036_63bc, 0)).sum == 0x5244_9e4b
  {}

  lemma Product29()
    ensures Turn32(M, State(0x5244_9e4b, 0x5244_9e4b, 0)).sum == 0x3755_a059
  {}

  lemma Product30()
    ensures Turn32(M, State(0x3755_a059, 0x3755_a059, 0)).sum == 0x5e6d_bd5d
  {}

  lemma Product31()
    ensures Turn32(M, State(0x574_b974, 0x5e6d_bd5d, 0)).sum == 0x2b4a_e0f2
  {}

  lemma Product32()
    ensures Turn32(M, State(0x2b4a_e0f2, 0x2b4a_e0f2, 0)).sum == 0x18dc_53d8
  {}

  lemma Product33()
    ensures Turn32(M, State(0x18dc_53d8, 0x18dc_53d8, 0)).sum == 0x43c5_57f0
  {}

  lemma Product34()
    ensures Turn32(M, State(0x2b4a_e0f2, 0x43c5_57f0, 0)).sum == 0x688f_b702
  {}

  lemma Product35()
    ensures Turn32(M, State(0x688f_b702, 0x688f_b702, 0)).sum == 0x688f_b703
  {}

  lemma Product36()
    ensures Turn32(M, State(0x688f_b702, 0x688f_b703, 0)).sum == 0x1
  {}

  // ---------- the powers that decide the order ----------

  lemma TestAt65537(f: Field)
    requires Suits(f, M) && f.w == 32 && IsPower(f, 1, 0x2)
    ensures Power(f, 65535) != 1 && IsPower(f, 65537, 0x7661_15c4)
  {
    hide Turn32, Power, Val, IsPower, Fits, Clears, OneHot, Meets;
    FirstPowers(f);
    Product1(); Multiply32(f, M, 1, 1, 0x2, 0x2, 0x4);
    Product2(); Multiply32(f, M, 2, 2, 0x4, 0x4, 0x10);
    Product3(); Multiply32(f, M, 4, 4, 0x10, 0x10, 0x100);
    Product4(); Multiply32(f, M, 8, 8, 0x100, 0x100, 0x1_0000);
    Product5(); Multiply32(f, M, 16, 16, 0x1_0000, 0x1_0000, 0x40_0007);
    Product6(); Multiply32(f, M, 32, 32, 0x40_0007, 0x40_0007, 0x100_7009);
    Product7(); Multiply32(f, M, 64, 64, 0x100_7009, 0x100_7009, 0x507_0181);
    Product8(); Multiply32(f, M, 128, 128, 0x507_0181, 0x507_0181, 0x1576_5dad);
    Product9(); Multiply32(f, M, 256, 256, 0x1576_5dad, 0x1576_5dad, 0x4627_f291);
    Product10(); Multiply32(f, M, 512, 512, 0x4627_f291, 0x4627_f291, 0x2034_416a);
    Product11(); Multiply32(f, M, 1024, 1024, 0x2034_416a, 0x2034_416a, 0x5846_0ef3);
    Product12(); Multiply32(f, M, 2048, 2048, 0x5846_0ef3, 0x5846_0ef3, 0x3789_9219);
    Product13(); Multiply32(f, M, 4096, 4096, 0x3789_9219, 0x3789_9219, 0xa68_1b81);
    Product14(); Multiply32(f, M, 8192, 8192, 0xa68_1b81, 0xa68_1b81, 0x50d9_5ac6);
    Product15(); Multiply32(f, M, 16384, 16384, 0x50d9_5ac6, 0x50d9_5ac6, 0x7718_21cf);
    Product16(); Multiply32(f, M, 32768, 32768, 0x7718_21cf, 0x7718_21cf, 0x3b30_8ae2);
    Product17(); Multiply32(f, M, 1, 65536, 0x2, 0x3b30_8ae2, 0x7661_15c4);
    Distinct65537();
    Differ(f, 65536, 1, 0x3b30_8ae2, 0x2, 0x20, 5);
    NotOne(f, 65535, 1);
  }

  lemma Distinct65537()
    ensures OneHot(0x20, 5) && Meets(0x3b30_8ae2, 0x20) != Meets(0x2, 0x20)
  {}

  lemma TestAt257(f: Field)
    requires Suits(f, M) && f.w == 32 && IsPower(f, 65537, 0x7661_15c4)
    ensures Power(f, 16711935) != 1 && IsPower(f, 16843009, 0x574_b974)
  {
    hide Turn32, Power, Val, IsPower, Fits, Clears, OneHot, Meets;
    FirstPowers(f);
    Product18(); Multiply32(f, M, 65537, 65537, 0x7661_15c4, 0x7661_15c4, 0x7f27_e1bb);
    Product19(); Multiply32(f, M, 131074, 131074, 0x7f27_e1bb, 0x7f27_e1bb, 0x3ef0_f542);
    Product20(); Multiply32(f, M, 262148, 262148, 0x3ef0_f542, 0x3ef0_f542, 0x5fba_11c4);
    Product21(); Multiply32(f, M, 524296, 524296, 0x5fba_11c4, 0x5fba_11c4, 0x37b6_2710);
    Product22(); Multiply32(f, M, 1048592, 1048592, 0x37b6_2710, 0x37b6_2710, 0x1a79_016c);
    Product23(); Multiply32(f, M, 2097184, 2097184, 0x1a79_016c, 0x1a79_016c, 0x12dc_c9e0);
    Product24(); Multiply32(f, M, 4194368, 4194368, 0x12dc_c9e0, 0x12dc_c9e0, 0x425d_25ac);
    Product25(); Multiply32(f, M, 8388736, 8388736, 0x425d_25ac, 0x425d_25ac, 0x2151_32fb);
    Product26(); Multiply32(f, M, 65537, 16777472, 0x7661_15c4, 0x2151_32fb, 0x574_b974);
    Distinct257();
    Differ(f, 16777472, 65537, 0x2151_32fb, 0x7661_15c4, 0x1, 0);
    NotOne(f, 16711935, 65537);
  }

  lemma Distinct257()
    ensures OneHot(0x1, 0) && Meets(0x2151_32fb, 0x1) != Meets(0x7661_15c4, 0x1)
  {}

  lemma TestAt17(f: Field)
    requires Suits(f, M) && f.w == 32 && IsPower(f, 16843009, 0x574_b974)
    ensures Power(f, 252645135) != 1 && IsPower(f, 286331153, 0x2b4a_e0f2)
  {
    hide Turn32, Power, Val, IsPower, Fits, Clears, OneHot, Meets;
    FirstPowers(f);
    Product27(); Multiply32(f, M, 16843009, 16843009, 0x574_b974, 0x574_b974, 0x1036_63bc);
    Product28(); Multiply32(f, M, 33686018, 33686018, 0x1036_63bc, 0x1036_63bc, 0x5244_9e4b);
    Product29(); Multiply32(f, M, 67372036, 67372036, 0x5244_9e4b, 0x5244_9e4b, 0x3755_a059);
    Product30(); Multiply32(f, M, 134744072, 134744072, 0x3755_a059, 0x3755_a059, 0x5e6d_bd5d);
    Product31(); Multiply32(f, M, 16843009, 269488144, 0x574_b974, 0x5e6d_bd5d, 0x2b4a_e0f2);
    Distinct17();
    Differ(f, 269488144, 16843009, 0x5e6d_bd5d, 0x574_b974, 0x1, 0);
    NotOne(f, 252645135, 16843009);
  }

  lemma Distinct17()
    ensures OneHot(0x1, 0) && Meets(0x5e6d_bd5d, 0x1) != Meets(0x574_b974, 0x1)
  {}

  lemma TestAt5(f: Field)
    requires Suits(f, M) && f.w == 32 && IsPower(f, 286331153, 0x2b4a_e0f2)
    ensures Power(f, 858993459) != 1 && IsPower(f, 1431655765, 0x688f_b702)
  {
    hide Turn32, Power, Val, IsPower, Fits, Clears, OneHot, Meets;
    FirstPowers(f);
    Product32(); Multiply32(f, M, 286331153, 286331153, 0x2b4a_e0f2, 0x2b4a_e0f2, 0x18dc_53d8);
    Product33(); Multiply32(f, M, 572662306, 572662306, 0x18dc_53d8, 0x18dc_53d8, 0x43c5_57f0);
    Product34(); Multiply32(f, M, 286331153, 1145324612, 0x2b4a_e0f2, 0x43c5_57f0, 0x688f_b702);
    Distinct5();
    Differ(f, 1145324612, 286331153, 0x43c5_57f0, 0x2b4a_e0f2, 0x2, 1);
    NotOne(f, 858993459, 286331153);
  }

  lemma Distinct5()
    ensures OneHot(0x2, 1) && Meets(0x43c5_57f0, 0x2) != Meets(0x2b4a_e0f2, 0x2)
  {}

  lemma TestAt3(f: Field)
    requires Suits(f, M) && f.w == 32 && IsPower(f, 1431655765, 0x688f_b702)
    ensures Power(f, 1431655765) != 1 && IsPower(f, 4294967295, 0x1)
  {
    hide Turn32, Power, Val, IsPower, Fits, Clears, OneHot, Meets;
    FirstPowers(f);
    Product35(); Multiply32(f, M, 1431655765, 1431655765, 0x688f_b702, 0x688f_b702, 0x688f_b703);
    Product36(); Multiply32(f, M, 1431655765, 2863311530, 0x688f_b702, 0x688f_b703, 0x1);
    Distinct3();
    Differ(f, 2863311530, 1431655765, 0x688f_b703, 0x688f_b702, 0x1, 0);
    NotOne(f, 1431655765, 1431655765);
  }

  lemma Distinct3()
    ensures OneHot(0x1, 0) && Meets(0x688f_b703, 0x1) != Meets(0x688f_b702, 0x1)
  {}
}
