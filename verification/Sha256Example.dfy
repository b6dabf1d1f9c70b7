/** The example of FIPS 180-4 for one block: the message `abc`, word by word and round by round. */
module Sha256Example {
  import opened Sha256Words
  import opened Sha256Spec

  const ABC: seq<byte> := [0x61, 0x62, 0x63]

  /** The only block: the message, the padding, and the length of 24 bits. */
  function Block(): (b: seq<byte>)
    ensures |b| == 64
  {
    ABC + Padding(3)
  }

  // ---------------------------------------------------------------- the message schedule

  /** Word `t` of the message schedule. */
  function W(t: nat): word
    requires t < 64
  {
    Schedule(Block(), 64)[t]
  }

  lemma Read(t: nat, b0: byte, b1: byte, b2: byte, b3: byte, w: word)
    requires t < 16 && BigEndian(b0, b1, b2, b3) == w
    requires Block()[4 * t] == b0 && Block()[4 * t + 1] == b1 && Block()[4 * t + 2] == b2 && Block()[4 * t + 3] == b3
    ensures W(t) == w
  {
    ScheduleAt(Block(), t);
    hide BigEndian, Schedule, Block, ExtendWord;
  }

  lemma Extend(t: nat, w2: word, w7: word, w15: word, w16: word, w: word)
    requires 16 <= t < 64 && ExtendWord(w2, w7, w15, w16) == w
    requires W(t - 2) == w2 && W(t - 7) == w7 && W(t - 15) == w15 && W(t - 16) == w16
    ensures W(t) == w
  {
    ScheduleAt(Block(), t);
    hide BigEndian, Schedule, Block, ExtendWord;
  }

  lemma BlockBytes()
    ensures Block()[0] == 0x61 && Block()[1] == 0x62 && Block()[2] == 0x63 && Block()[3] == 0x80
    ensures forall i :: 4 <= i < 63 ==> Block()[i] == 0
    ensures Block()[63] == 24
  {
    assert Zeros(3) == 52;
    LengthOfAbc();
    hide Length64, Zeros;
    assert Block() == ABC + [0x80] + Fill(52) + Length64(24);
  }

  lemma LengthOfAbc()
    ensures |Length64(24)| == 8 && Length64(24)[7] == 24 && forall i :: 0 <= i < 7 ==> Length64(24)[i] == 0
  {
    assert ByteAt(24, 1) == 24;
  }

  lemma Words0()
    ensures W(0) == 0x61626380 && W(1) == 0x00000000 && W(2) == 0x00000000 && W(3) == 0x00000000
    ensures W(4) == 0x00000000 && W(5) == 0x00000000 && W(6) == 0x00000000 && W(7) == 0x00000000
  {
    BlockBytes();
    hide Block, W;
    Read(0, 0x61, 0x62, 0x63, 0x80, 0x61626380);
    Read(1, 0x00, 0x00, 0x00, 0x00, 0x00000000);
    Read(2, 0x00, 0x00, 0x00, 0x00, 0x00000000);
    Read(3, 0x00, 0x00, 0x00, 0x00, 0x00000000);
    Read(4, 0x00, 0x00, 0x00, 0x00, 0x00000000);
    Read(5, 0x00, 0x00, 0x00, 0x00, 0x00000000);
    Read(6, 0x00, 0x00, 0x00, 0x00, 0x00000000);
    Read(7, 0x00, 0x00, 0x00, 0x00, 0x00000000);
  }

  lemma Words1()
    ensures W(8) == 0x00000000 && W(9) == 0x00000000 && W(10) == 0x00000000 && W(11) == 0x00000000
    ensures W(12) == 0x00000000 && W(13) == 0x00000000 && W(14) == 0x00000000 && W(15) == 0x00000018
  {
    BlockBytes();
    hide Block, W;
    Read(8, 0x00, 0x00, 0x00, 0x00, 0x00000000);
    Read(9, 0x00, 0x00, 0x00, 0x00, 0x00000000);
    Read(10, 0x00, 0x00, 0x00, 0x00, 0x00000000);
    Read(11, 0x00, 0x00, 0x00, 0x00, 0x00000000);
    Read(12, 0x00, 0x00, 0x00, 0x00, 0x00000000);
    Read(13, 0x00, 0x00, 0x00, 0x00, 0x00000000);
    Read(14, 0x00, 0x00, 0x00, 0x00, 0x00000000);
    Read(15, 0x00, 0x00, 0x00, 0x18, 0x00000018);
  }

  lemma Words2()
    ensures W(16) == 0x61626380 && W(17) == 0x000f0000 && W(18) == 0x7da86405 && W(19) == 0x600003c6
    ensures W(20) == 0x3e9d7b78 && W(21) == 0x0183fc00 && W(22) == 0x12dcbfdb && W(23) == 0xe2e2c38e
  {
    hide W;
    Words0();
    Words1();
    Extend(16, 0x00000000, 0x00000000, 0x00000000, 0x61626380, 0x61626380);
    Extend(17, 0x00000018, 0x00000000, 0x00000000, 0x00000000, 0x000f0000);
    Extend(18, 0x61626380, 0x00000000, 0x00000000, 0x00000000, 0x7da86405);
    Extend(19, 0x000f0000, 0x00000000, 0x00000000, 0x00000000, 0x600003c6);
    Extend(20, 0x7da86405, 0x00000000, 0x00000000, 0x00000000, 0x3e9d7b78);
    Extend(21, 0x600003c6, 0x00000000, 0x00000000, 0x00000000, 0x0183fc00);
    Extend(22, 0x3e9d7b78, 0x00000018, 0x00000000, 0x00000000, 0x12dcbfdb);
    Extend(23, 0x0183fc00, 0x61626380, 0x00000000, 0x00000000, 0xe2e2c38e);
  }

  lemma Words3()
    ensures W(24) == 0xc8215c1a && W(25) == 0xb73679a2 && W(26) == 0xe5bc3909 && W(27) == 0x32663c5b
    ensures W(28) == 0x9d209d67 && W(29) == 0xec8726cb && W(30) == 0x702138a4 && W(31) == 0xd3b7973b
  {
    hide W;
    Words1();
    Words2();
    Extend(24, 0x12dcbfdb, 0x000f0000, 0x00000000, 0x00000000, 0xc8215c1a);
    Extend(25, 0xe2e2c38e, 0x7da86405, 0x00000000, 0x00000000, 0xb73679a2);
    Extend(26, 0xc8215c1a, 0x600003c6, 0x00000000, 0x00000000, 0xe5bc3909);
    Extend(27, 0xb73679a2, 0x3e9d7b78, 0x00000000, 0x00000000, 0x32663c5b);
    Extend(28, 0xe5bc3909, 0x0183fc00, 0x00000000, 0x00000000, 0x9d209d67);
    Extend(29, 0x32663c5b, 0x12dcbfdb, 0x00000000, 0x00000000, 0xec8726cb);
    Extend(30, 0x9d209d67, 0xe2e2c38e, 0x00000018, 0x00000000, 0x702138a4);
    Extend(31, 0xec8726cb, 0xc8215c1a, 0x61626380, 0x00000018, 0xd3b7973b);
  }

  lemma Words4()
    ensures W(32) == 0x93f5997f && W(33) == 0x3b68ba73 && W(34) == 0xaff4ffc1 && W(35) == 0xf10a5c62
    ensures W(36) == 0x0a8b3996 && W(37) == 0x72af830a && W(38) == 0x9409e33e && W(39) == 0x24641522
  {
    hide W;
    Words2();
    Words3();
    Extend(32, 0x702138a4, 0xb73679a2, 0x000f0000, 0x61626380, 0x93f5997f);
    Extend(33, 0xd3b7973b, 0xe5bc3909, 0x7da86405, 0x000f0000, 0x3b68ba73);
    Extend(34, 0x93f5997f, 0x32663c5b, 0x600003c6, 0x7da86405, 0xaff4ffc1);
    Extend(35, 0x3b68ba73, 0x9d209d67, 0x3e9d7b78, 0x600003c6, 0xf10a5c62);
    Extend(36, 0xaff4ffc1, 0xec8726cb, 0x0183fc00, 0x3e9d7b78, 0x0a8b3996);
    Extend(37, 0xf10a5c62, 0x702138a4, 0x12dcbfdb, 0x0183fc00, 0x72af830a);
    Extend(38, 0x0a8b3996, 0xd3b7973b, 0xe2e2c38e, 0x12dcbfdb, 0x9409e33e);
    Extend(39, 0x72af830a, 0x93f5997f, 0xc8215c1a, 0xe2e2c38e, 0x24641522);
  }

  lemma Words5()
    ensures W(40) == 0x9f47bf94 && W(41) == 0xf0a64f5a && W(42) == 0x3e246a79 && W(43) == 0x27333ba3
    ensures W(44) == 0x0c4763f2 && W(45) == 0x840abf27 && W(46) == 0x7a290d5d && W(47) == 0x065c43da
  {
    hide W;
    Words3();
    Words4();
    Extend(40, 0x9409e33e, 0x3b68ba73, 0xb73679a2, 0xc8215c1a, 0x9f47bf94);
    Extend(41, 0x24641522, 0xaff4ffc1, 0xe5bc3909, 0xb73679a2, 0xf0a64f5a);
    Extend(42, 0x9f47bf94, 0xf10a5c62, 0x32663c5b, 0xe5bc3909, 0x3e246a79);
    Extend(43, 0xf0a64f5a, 0x0a8b3996, 0x9d209d67, 0x32663c5b, 0x27333ba3);
    Extend(44, 0x3e246a79, 0x72af830a, 0xec8726cb, 0x9d209d67, 0x0c4763f2);
    Extend(45, 0x27333ba3, 0x9409e33e, 0x702138a4, 0xec8726cb, 0x840abf27);
    Extend(46, 0x0c4763f2, 0x24641522, 0xd3b7973b, 0x702138a4, 0x7a290d5d);
    Extend(47, 0x840abf27, 0x9f47bf94, 0x93f5997f, 0xd3b7973b, 0x065c43da);
  }

  lemma Words6()
    ensures W(48) == 0xfb3e89cb && W(49) == 0xcc7617db && W(50) == 0xb9e66c34 && W(51) == 0xa9993667
    ensures W(52) == 0x84badedd && W(53) == 0xc21462bc && W(54) == 0x1487472c && W(55) == 0xb20f7a99
  {
    hide W;
    Words4();
    Words5();
    Extend(48, 0x7a290d5d, 0xf0a64f5a, 0x3b68ba73, 0x93f5997f, 0xfb3e89cb);
    Extend(49, 0x065c43da, 0x3e246a79, 0xaff4ffc1, 0x3b68ba73, 0xcc7617db);
    Extend(50, 0xfb3e89cb, 0x27333ba3, 0xf10a5c62, 0xaff4ffc1, 0xb9e66c34);
    Extend(51, 0xcc7617db, 0x0c4763f2, 0x0a8b3996, 0xf10a5c62, 0xa9993667);
    Extend(52, 0xb9e66c34, 0x840abf27, 0x72af830a, 0x0a8b3996, 0x84badedd);
    Extend(53, 0xa9993667, 0x7a290d5d, 0x9409e33e, 0x72af830a, 0xc21462bc);
    Extend(54, 0x84badedd, 0x065c43da, 0x24641522, 0x9409e33e, 0x1487472c);
    Extend(55, 0xc21462bc, 0xfb3e89cb, 0x9f47bf94, 0x24641522, 0xb20f7a99);
  }

  lemma Words7()
    ensures W(56) == 0xef57b9cd && W(57) == 0xebe6b238 && W(58) == 0x9fe3095e && W(59) == 0x78bc8d4b
    ensures W(60) == 0xa43fcf15 && W(61) == 0x668b2ff8 && W(62) == 0xeeaba2cc && W(63) == 0x12b1edeb
  {
    hide W;
    Words5();
    Words6();
    Extend(56, 0x1487472c, 0xcc7617db, 0xf0a64f5a, 0x9f47bf94, 0xef57b9cd);
    Extend(57, 0xb20f7a99, 0xb9e66c34, 0x3e246a79, 0xf0a64f5a, 0xebe6b238);
    Extend(58, 0xef57b9cd, 0xa9993667, 0x27333ba3, 0x3e246a79, 0x9fe3095e);
    Extend(59, 0xebe6b238, 0x84badedd, 0x0c4763f2, 0x27333ba3, 0x78bc8d4b);
    Extend(60, 0x9fe3095e, 0xc21462bc, 0x840abf27, 0x0c4763f2, 0xa43fcf15);
    Extend(61, 0x78bc8d4b, 0x1487472c, 0x7a290d5d, 0x840abf27, 0x668b2ff8);
    Extend(62, 0xa43fcf15, 0xb20f7a99, 0x065c43da, 0x7a290d5d, 0xeeaba2cc);
    Extend(63, 0x668b2ff8, 0xef57b9cd, 0xfb3e89cb, 0x065c43da, 0x12b1edeb);
  }

  // ---------------------------------------------------------------- the rounds

  /** The working variables after `t` rounds. */
  function Working(t: nat): Regs
    requires t <= 64
  {
    Rounds(IV, Schedule(Block(), 64), t)
  }

  /** Round `t` moves the variables on, and gives `a` and `e` new values. */
  lemma Turn(t: nat, r: Regs, k: word, w: word, a: word, e: word)
    requires t < 64 && Working(t) == r && RoundConstant(t) == k && W(t) == w
    requires Round(r, k, w) == Regs(a, r.a, r.b, r.c, e, r.e, r.f, r.g)
    ensures Working(t + 1) == Regs(a, r.a, r.b, r.c, e, r.e, r.f, r.g)
  {
    hide Round, RoundConstant, Schedule, Block, IV;
  }

  lemma Round0()
    ensures Working(1) ==
      Regs(0x5d6aebcd, 0x6a09e667, 0xbb67ae85, 0x3c6ef372, 0xfa2a4622, 0x510e527f, 0x9b05688c, 0x1f83d9ab)
  {
    Words0();
    assert Working(0) == IV;
    hide W, Working;
    Turn(0, Regs(0x6a09e667, 0xbb67ae85, 0x3c6ef372, 0xa54ff53a, 0x510e527f, 0x9b05688c, 0x1f83d9ab, 0x5be0cd19),
      0x428a2f98, 0x61626380, 0x5d6aebcd, 0xfa2a4622);
  }

  lemma Round1()
    ensures Working(2) ==
      Regs(0x5a6ad9ad, 0x5d6aebcd, 0x6a09e667, 0xbb67ae85, 0x78ce7989, 0xfa2a4622, 0x510e527f, 0x9b05688c)
  {
    Words0();
    Round0();
    hide W, Working;
    Turn(1, Regs(0x5d6aebcd, 0x6a09e667, 0xbb67ae85, 0x3c6ef372, 0xfa2a4622, 0x510e527f, 0x9b05688c, 0x1f83d9ab),
      0x71374491, 0x00000000, 0x5a6ad9ad, 0x78ce7989);
  }

  lemma Round2()
    ensures Working(3) ==
      Regs(0xc8c347a7, 0x5a6ad9ad, 0x5d6aebcd, 0x6a09e667, 0xf92939eb, 0x78ce7989, 0xfa2a4622, 0x510e527f)
  {
    Words0();
    Round1();
    hide W, Working;
    Turn(2, Regs(0x5a6ad9ad, 0x5d6aebcd, 0x6a09e667, 0xbb67ae85, 0x78ce7989, 0xfa2a4622, 0x510e527f, 0x9b05688c),
      0xb5c0fbcf, 0x00000000, 0xc8c347a7, 0xf92939eb);
  }

  lemma Round3()
    ensures Working(4) ==
      Regs(0xd550f666, 0xc8c347a7, 0x5a6ad9ad, 0x5d6aebcd, 0x24e00850, 0xf92939eb, 0x78ce7989, 0xfa2a4622)
  {
    Words0();
    Round2();
    hide W, Working;
    Turn(3, Regs(0xc8c347a7, 0x5a6ad9ad, 0x5d6aebcd, 0x6a09e667, 0xf92939eb, 0x78ce7989, 0xfa2a4622, 0x510e527f),
      0xe9b5dba5, 0x00000000, 0xd550f666, 0x24e00850);
  }

  lemma Round4()
    ensures Working(5) ==
      Regs(0x04409a6a, 0xd550f666, 0xc8c347a7, 0x5a6ad9ad, 0x43ada245, 0x24e00850, 0xf92939eb, 0x78ce7989)
  {
    Words0();
    Round3();
    hide W, Working;
    Turn(4, Regs(0xd550f666, 0xc8c347a7, 0x5a6ad9ad, 0x5d6aebcd, 0x24e00850, 0xf92939eb, 0x78ce7989, 0xfa2a4622),
      0x3956c25b, 0x00000000, 0x04409a6a, 0x43ada245);
  }

  lemma Round5()
    ensures Working(6) ==
      Regs(0x2b4209f5, 0x04409a6a, 0xd550f666, 0xc8c347a7, 0x714260ad, 0x43ada245, 0x24e00850, 0xf92939eb)
  {
    Words0();
    Round4();
    hide W, Working;
    Turn(5, Regs(0x04409a6a, 0xd550f666, 0xc8c347a7, 0x5a6ad9ad, 0x43ada245, 0x24e00850, 0xf92939eb, 0x78ce7989),
      0x59f111f1, 0x00000000, 0x2b4209f5, 0x714260ad);
  }

  lemma Round6()
    ensures Working(7) ==
      Regs(0xe5030380, 0x2b4209f5, 0x04409a6a, 0xd550f666, 0x9b27a401, 0x714260ad, 0x43ada245, 0x24e00850)
  {
    Words0();
    Round5();
    hide W, Working;
    Turn(6, Regs(0x2b4209f5, 0x04409a6a, 0xd550f666, 0xc8c347a7, 0x714260ad, 0x43ada245, 0x24e00850, 0xf92939eb),
      0x923f82a4, 0x00000000, 0xe5030380, 0x9b27a401);
  }

  lemma Round7()
    ensures Working(8) ==
      Regs(0x85a07b5f, 0xe5030380, 0x2b4209f5, 0x04409a6a, 0x0c657a79, 0x9b27a401, 0x714260ad, 0x43ada245)
  {
    Words0();
    Round6();
    hide W, Working;
    Turn(7, Regs(0xe5030380, 0x2b4209f5, 0x04409a6a, 0xd550f666, 0x9b27a401, 0x714260ad, 0x43ada245, 0x24e00850),
      0xab1c5ed5, 0x00000000, 0x85a07b5f, 0x0c657a79);
  }

  lemma Round8()
    ensures Working(9) ==
      Regs(0x8e04ecb9, 0x85a07b5f, 0xe5030380, 0x2b4209f5, 0x32ca2d8c, 0x0c657a79, 0x9b27a401, 0x714260ad)
  {
    Words1();
    Round7();
    hide W, Working;
    Turn(8, Regs(0x85a07b5f, 0xe5030380, 0x2b4209f5, 0x04409a6a, 0x0c657a79, 0x9b27a401, 0x714260ad, 0x43ada245),
      0xd807aa98, 0x00000000, 0x8e04ecb9, 0x32ca2d8c);
  }

  lemma Round9()
    ensures Working(10) ==
      Regs(0x8c87346b, 0x8e04ecb9, 0x85a07b5f, 0xe5030380, 0x1cc92596, 0x32ca2d8c, 0x0c657a79, 0x9b27a401)
  {
    Words1();
    Round8();
    hide W, Working;
    Turn(9, Regs(0x8e04ecb9, 0x85a07b5f, 0xe5030380, 0x2b4209f5, 0x32ca2d8c, 0x0c657a79, 0x9b27a401, 0x714260ad),
      0x12835b01, 0x00000000, 0x8c87346b, 0x1cc92596);
  }

  lemma Round10()
    ensures Working(11) ==
      Regs(0x4798a3f4, 0x8c87346b, 0x8e04ecb9, 0x85a07b5f, 0x436b23e8, 0x1cc92596, 0x32ca2d8c, 0x0c657a79)
  {
    Words1();
    Round9();
    hide W, Working;
    Turn(10, Regs(0x8c87346b, 0x8e04ecb9, 0x85a07b5f, 0xe5030380, 0x1cc92596, 0x32ca2d8c, 0x0c657a79, 0x9b27a401),
      0x243185be, 0x00000000, 0x4798a3f4, 0x436b23e8);
  }

  lemma Round11()
    ensures Working(12) ==
      Regs(0xf71fc5a9, 0x4798a3f4, 0x8c87346b, 0x8e04ecb9, 0x816fd6e9, 0x436b23e8, 0x1cc92596, 0x32ca2d8c)
  {
    Words1();
    Round10();
    hide W, Working;
    Turn(11, Regs(0x4798a3f4, 0x8c87346b, 0x8e04ecb9, 0x85a07b5f, 0x436b23e8, 0x1cc92596, 0x32ca2d8c, 0x0c657a79),
      0x550c7dc3, 0x00000000, 0xf71fc5a9, 0x816fd6e9);
  }

  lemma Round12()
    ensures Working(13) ==
      Regs(0x87912990, 0xf71fc5a9, 0x4798a3f4, 0x8c87346b, 0x1e578218, 0x816fd6e9, 0x436b23e8, 0x1cc92596)
  {
    Words1();
    Round11();
    hide W, Working;
    Turn(12, Regs(0xf71fc5a9, 0x4798a3f4, 0x8c87346b, 0x8e04ecb9, 0x816fd6e9, 0x436b23e8, 0x1cc92596, 0x32ca2d8c),
      0x72be5d74, 0x00000000, 0x87912990, 0x1e578218);
  }

  lemma Round13()
    ensures Working(14) ==
      Regs(0xd932eb16, 0x87912990, 0xf71fc5a9, 0x4798a3f4, 0x745a48de, 0x1e578218, 0x816fd6e9, 0x436b23e8)
  {
    Words1();
    Round12();
    hide W, Working;
    Turn(13, Regs(0x87912990, 0xf71fc5a9, 0x4798a3f4, 0x8c87346b, 0x1e578218, 0x816fd6e9, 0x436b23e8, 0x1cc92596),
      0x80deb1fe, 0x00000000, 0xd932eb16, 0x745a48de);
  }

  lemma Round14()
    ensures Working(15) ==
      Regs(0xc0645fde, 0xd932eb16, 0x87912990, 0xf71fc5a9, 0x0b92f20c, 0x745a48de, 0x1e578218, 0x816fd6e9)
  {
    Words1();
    Round13();
    hide W, Working;
    Turn(14, Regs(0xd932eb16, 0x87912990, 0xf71fc5a9, 0x4798a3f4, 0x745a48de, 0x1e578218, 0x816fd6e9, 0x436b23e8),
      0x9bdc06a7, 0x00000000, 0xc0645fde, 0x0b92f20c);
  }

  lemma Round15()
    ensures Working(16) ==
      Regs(0xb0fa238e, 0xc0645fde, 0xd932eb16, 0x87912990, 0x07590dcd, 0x0b92f20c, 0x745a48de, 0x1e578218)
  {
    Words1();
    Round14();
    hide W, Working;
    Turn(15, Regs(0xc0645fde, 0xd932eb16, 0x87912990, 0xf71fc5a9, 0x0b92f20c, 0x745a48de, 0x1e578218, 0x816fd6e9),
      0xc19bf174, 0x00000018, 0xb0fa238e, 0x07590dcd);
  }

  lemma Round16()
    ensures Working(17) ==
      Regs(0x21da9a9b, 0xb0fa238e, 0xc0645fde, 0xd932eb16, 0x8034229c, 0x07590dcd, 0x0b92f20c, 0x745a48de)
  {
    Words2();
    Round15();
    hide W, Working;
    Turn(16, Regs(0xb0fa238e, 0xc0645fde, 0xd932eb16, 0x87912990, 0x07590dcd, 0x0b92f20c, 0x745a48de, 0x1e578218),
      0xe49b69c1, 0x61626380, 0x21da9a9b, 0x8034229c);
  }

  lemma Round17()
    ensures Working(18) ==
      Regs(0xc2fbd9d1, 0x21da9a9b, 0xb0fa238e, 0xc0645fde, 0x846ee454, 0x8034229c, 0x07590dcd, 0x0b92f20c)
  {
    Words2();
    Round16();
    hide W, Working;
    Turn(17, Regs(0x21da9a9b, 0xb0fa238e, 0xc0645fde, 0xd932eb16, 0x8034229c, 0x07590dcd, 0x0b92f20c, 0x745a48de),
      0xefbe4786, 0x000f0000, 0xc2fbd9d1, 0x846ee454);
  }

  lemma Round18()
    ensures Working(19) ==
      Regs(0xfe777bbf, 0xc2fbd9d1, 0x21da9a9b, 0xb0fa238e, 0xcc899961, 0x846ee454, 0x8034229c, 0x07590dcd)
  {
    Words2();
    Round17();
    hide W, Working;
    Turn(18, Regs(0xc2fbd9d1, 0x21da9a9b, 0xb0fa238e, 0xc0645fde, 0x846ee454, 0x8034229c, 0x07590dcd, 0x0b92f20c),
      0x0fc19dc6, 0x7da86405, 0xfe777bbf, 0xcc899961);
  }

  lemma Round19()
    ensures Working(20) ==
      Regs(0xe1f20c33, 0xfe777bbf, 0xc2fbd9d1, 0x21da9a9b, 0xb0638179, 0xcc899961, 0x846ee454, 0x8034229c)
  {
    Words2();
    Round18();
    hide W, Working;
    Turn(19, Regs(0xfe777bbf, 0xc2fbd9d1, 0x21da9a9b, 0xb0fa238e, 0xcc899961, 0x846ee454, 0x8034229c, 0x07590dcd),
      0x240ca1cc, 0x600003c6, 0xe1f20c33, 0xb0638179);
  }

  lemma Round20()
    ensures Working(21) ==
      Regs(0x9dc68b63, 0xe1f20c33, 0xfe777bbf, 0xc2fbd9d1, 0x8ada8930, 0xb0638179, 0xcc899961, 0x846ee454)
  {
    Words2();
    Round19();
    hide W, Working;
    Turn(20, Regs(0xe1f20c33, 0xfe777bbf, 0xc2fbd9d1, 0x21da9a9b, 0xb0638179, 0xcc899961, 0x846ee454, 0x8034229c),
      0x2de92c6f, 0x3e9d7b78, 0x9dc68b63, 0x8ada8930);
  }

  lemma Round21()
    ensures Working(22) ==
      Regs(0xc2606d6d, 0x9dc68b63, 0xe1f20c33, 0xfe777bbf, 0xe1257970, 0x8ada8930, 0xb0638179, 0xcc899961)
  {
    Words2();
    Round20();
    hide W, Working;
    Turn(21, Regs(0x9dc68b63, 0xe1f20c33, 0xfe777bbf, 0xc2fbd9d1, 0x8ada8930, 0xb0638179, 0xcc899961, 0x846ee454),
      0x4a7484aa, 0x0183fc00, 0xc2606d6d, 0xe1257970);
  }

  lemma Round22()
    ensures Working(23) ==
      Regs(0xa7a3623f, 0xc2606d6d, 0x9dc68b63, 0xe1f20c33, 0x49f5114a, 0xe1257970, 0x8ada8930, 0xb0638179)
  {
    Words2();
    Round21();
    hide W, Working;
    Turn(22, Regs(0xc2606d6d, 0x9dc68b63, 0xe1f20c33, 0xfe777bbf, 0xe1257970, 0x8ada8930, 0xb0638179, 0xcc899961),
      0x5cb0a9dc, 0x12dcbfdb, 0xa7a3623f, 0x49f5114a);
  }

  lemma Round23()
    ensures Working(24) ==
      Regs(0xc5d53d8d, 0xa7a3623f, 0xc2606d6d, 0x9dc68b63, 0xaa47c347, 0x49f5114a, 0xe1257970, 0x8ada8930)
  {
    Words2();
    Round22();
    hide W, Working;
    Turn(23, Regs(0xa7a3623f, 0xc2606d6d, 0x9dc68b63, 0xe1f20c33, 0x49f5114a, 0xe1257970, 0x8ada8930, 0xb0638179),
      0x76f988da, 0xe2e2c38e, 0xc5d53d8d, 0xaa47c347);
  }

  lemma Round24()
    ensures Working(25) ==
      Regs(0x1c2c2838, 0xc5d53d8d, 0xa7a3623f, 0xc2606d6d, 0x2823ef91, 0xaa47c347, 0x49f5114a, 0xe1257970)
  {
    Words3();
    Round23();
    hide W, Working;
    Turn(24, Regs(0xc5d53d8d, 0xa7a3623f, 0xc2606d6d, 0x9dc68b63, 0xaa47c347, 0x49f5114a, 0xe1257970, 0x8ada8930),
      0x983e5152, 0xc8215c1a, 0x1c2c2838, 0x2823ef91);
  }

  lemma Round25()
    ensures Working(26) ==
      Regs(0xcde8037d, 0x1c2c2838, 0xc5d53d8d, 0xa7a3623f, 0x14383d8e, 0x2823ef91, 0xaa47c347, 0x49f5114a)
  {
    Words3();
    Round24();
    hide W, Working;
    Turn(25, Regs(0x1c2c2838, 0xc5d53d8d, 0xa7a3623f, 0xc2606d6d, 0x2823ef91, 0xaa47c347, 0x49f5114a, 0xe1257970),
      0xa831c66d, 0xb73679a2, 0xcde8037d, 0x14383d8e);
  }

  lemma Round26()
    ensures Working(27) ==
      Regs(0xb62ec4bc, 0xcde8037d, 0x1c2c2838, 0xc5d53d8d, 0xc74c6516, 0x14383d8e, 0x2823ef91, 0xaa47c347)
  {
    Words3();
    Round25();
    hide W, Working;
    Turn(26, Regs(0xcde8037d, 0x1c2c2838, 0xc5d53d8d, 0xa7a3623f, 0x14383d8e, 0x2823ef91, 0xaa47c347, 0x49f5114a),
      0xb00327c8, 0xe5bc3909, 0xb62ec4bc, 0xc74c6516);
  }

  lemma Round27()
    ensures Working(28) ==
      Regs(0x77d37528, 0xb62ec4bc, 0xcde8037d, 0x1c2c2838, 0xedffbff8, 0xc74c6516, 0x14383d8e, 0x2823ef91)
  {
    Words3();
    Round26();
    hide W, Working;
    Turn(27, Regs(0xb62ec4bc, 0xcde8037d, 0x1c2c2838, 0xc5d53d8d, 0xc74c6516, 0x14383d8e, 0x2823ef91, 0xaa47c347),
      0xbf597fc7, 0x32663c5b, 0x77d37528, 0xedffbff8);
  }

  lemma Round28()
    ensures Working(29) ==
      Regs(0x363482c9, 0x77d37528, 0xb62ec4bc, 0xcde8037d, 0x6112a3b7, 0xedffbff8, 0xc74c6516, 0x14383d8e)
  {
    Words3();
    Round27();
    hide W, Working;
    Turn(28, Regs(0x77d37528, 0xb62ec4bc, 0xcde8037d, 0x1c2c2838, 0xedffbff8, 0xc74c6516, 0x14383d8e, 0x2823ef91),
      0xc6e00bf3, 0x9d209d67, 0x363482c9, 0x6112a3b7);
  }

  lemma Round29()
    ensures Working(30) ==
      Regs(0xa0060b30, 0x363482c9, 0x77d37528, 0xb62ec4bc, 0xade79437, 0x6112a3b7, 0xedffbff8, 0xc74c6516)
  {
    Words3();
    Round28();
    hide W, Working;
    Turn(29, Regs(0x363482c9, 0x77d37528, 0xb62ec4bc, 0xcde8037d, 0x6112a3b7, 0xedffbff8, 0xc74c6516, 0x14383d8e),
      0xd5a79147, 0xec8726cb, 0xa0060b30, 0xade79437);
  }

  lemma Round30()
    ensures Working(31) ==
      Regs(0xea992a22, 0xa0060b30, 0x363482c9, 0x77d37528, 0x0109ab3a, 0xade79437, 0x6112a3b7, 0xedffbff8)
  {
    Words3();
    Round29();
    hide W, Working;
    Turn(30, Regs(0xa0060b30, 0x363482c9, 0x77d37528, 0xb62ec4bc, 0xade79437, 0x6112a3b7, 0xedffbff8, 0xc74c6516),
      0x06ca6351, 0x702138a4, 0xea992a22, 0x0109ab3a);
  }

  lemma Round31()
    ensures Working(32) ==
      Regs(0x73b33bf5, 0xea992a22, 0xa0060b30, 0x363482c9, 0xba591112, 0x0109ab3a, 0xade79437, 0x6112a3b7)
  {
    Words3();
    Round30();
    hide W, Working;
    Turn(31, Regs(0xea992a22, 0xa0060b30, 0x363482c9, 0x77d37528, 0x0109ab3a, 0xade79437, 0x6112a3b7, 0xedffbff8),
      0x14292967, 0xd3b7973b, 0x73b33bf5, 0xba591112);
  }

  lemma Round32()
    ensures Working(33) ==
      Regs(0x98e12507, 0x73b33bf5, 0xea992a22, 0xa0060b30, 0x9cd9f5f6, 0xba591112, 0x0109ab3a, 0xade79437)
  {
    Words4();
    Round31();
    hide W, Working;
    Turn(32, Regs(0x73b33bf5, 0xea992a22, 0xa0060b30, 0x363482c9, 0xba591112, 0x0109ab3a, 0xade79437, 0x6112a3b7),
      0x27b70a85, 0x93f5997f, 0x98e12507, 0x9cd9f5f6);
  }

  lemma Round33()
    ensures Working(34) ==
      Regs(0xfe604df5, 0x98e12507, 0x73b33bf5, 0xea992a22, 0x59249dd3, 0x9cd9f5f6, 0xba591112, 0x0109ab3a)
  {
    Words4();
    Round32();
    hide W, Working;
    Turn(33, Regs(0x98e12507, 0x73b33bf5, 0xea992a22, 0xa0060b30, 0x9cd9f5f6, 0xba591112, 0x0109ab3a, 0xade79437),
      0x2e1b2138, 0x3b68ba73, 0xfe604df5, 0x59249dd3);
  }

  lemma Round34()
    ensures Working(35) ==
      Regs(0xa9a7738c, 0xfe604df5, 0x98e12507, 0x73b33bf5, 0x085f3833, 0x59249dd3, 0x9cd9f5f6, 0xba591112)
  {
    Words4();
    Round33();
    hide W, Working;
    Turn(34, Regs(0xfe604df5, 0x98e12507, 0x73b33bf5, 0xea992a22, 0x59249dd3, 0x9cd9f5f6, 0xba591112, 0x0109ab3a),
      0x4d2c6dfc, 0xaff4ffc1, 0xa9a7738c, 0x085f3833);
  }

  lemma Round35()
    ensures Working(36) ==
      Regs(0x65a0cfe4, 0xa9a7738c, 0xfe604df5, 0x98e12507, 0xf4b002d6, 0x085f3833, 0x59249dd3, 0x9cd9f5f6)
  {
    Words4();
    Round34();
    hide W, Working;
    Turn(35, Regs(0xa9a7738c, 0xfe604df5, 0x98e12507, 0x73b33bf5, 0x085f3833, 0x59249dd3, 0x9cd9f5f6, 0xba591112),
      0x53380d13, 0xf10a5c62, 0x65a0cfe4, 0xf4b002d6);
  }

  lemma Round36()
    ensures Working(37) ==
      Regs(0x41a65cb1, 0x65a0cfe4, 0xa9a7738c, 0xfe604df5, 0x0772a26b, 0xf4b002d6, 0x085f3833, 0x59249dd3)
  {
    Words4();
    Round35();
    hide W, Working;
    Turn(36, Regs(0x65a0cfe4, 0xa9a7738c, 0xfe604df5, 0x98e12507, 0xf4b002d6, 0x085f3833, 0x59249dd3, 0x9cd9f5f6),
      0x650a7354, 0x0a8b3996, 0x41a65cb1, 0x0772a26b);
  }

  lemma Round37()
    ensures Working(38) ==
      Regs(0x34df1604, 0x41a65cb1, 0x65a0cfe4, 0xa9a7738c, 0xa507a53d, 0x0772a26b, 0xf4b002d6, 0x085f3833)
  {
    Words4();
    Round36();
    hide W, Working;
    Turn(37, Regs(0x41a65cb1, 0x65a0cfe4, 0xa9a7738c, 0xfe604df5, 0x0772a26b, 0xf4b002d6, 0x085f3833, 0x59249dd3),
      0x766a0abb, 0x72af830a, 0x34df1604, 0xa507a53d);
  }

  lemma Round38()
    ensures Working(39) ==
      Regs(0x6dc57a8a, 0x34df1604, 0x41a65cb1, 0x65a0cfe4, 0xf0781bc8, 0xa507a53d, 0x0772a26b, 0xf4b002d6)
  {
    Words4();
    Round37();
    hide W, Working;
    Turn(38, Regs(0x34df1604, 0x41a65cb1, 0x65a0cfe4, 0xa9a7738c, 0xa507a53d, 0x0772a26b, 0xf4b002d6, 0x085f3833),
      0x81c2c92e, 0x9409e33e, 0x6dc57a8a, 0xf0781bc8);
  }

  lemma Round39()
    ensures Working(40) ==
      Regs(0x79ea687a, 0x6dc57a8a, 0x34df1604, 0x41a65cb1, 0x1efbc0a0, 0xf0781bc8, 0xa507a53d, 0x0772a26b)
  {
    Words4();
    Round38();
    hide W, Working;
    Turn(39, Regs(0x6dc57a8a, 0x34df1604, 0x41a65cb1, 0x65a0cfe4, 0xf0781bc8, 0xa507a53d, 0x0772a26b, 0xf4b002d6),
      0x92722c85, 0x24641522, 0x79ea687a, 0x1efbc0a0);
  }

  lemma Round40()
    ensures Working(41) ==
      Regs(0xd6670766, 0x79ea687a, 0x6dc57a8a, 0x34df1604, 0x26352d63, 0x1efbc0a0, 0xf0781bc8, 0xa507a53d)
  {
    Words5();
    Round39();
    hide W, Working;
    Turn(40, Regs(0x79ea687a, 0x6dc57a8a, 0x34df1604, 0x41a65cb1, 0x1efbc0a0, 0xf0781bc8, 0xa507a53d, 0x0772a26b),
      0xa2bfe8a1, 0x9f47bf94, 0xd6670766, 0x26352d63);
  }

  lemma Round41()
    ensures Working(42) ==
      Regs(0xdf46652f, 0xd6670766, 0x79ea687a, 0x6dc57a8a, 0x838b2711, 0x26352d63, 0x1efbc0a0, 0xf0781bc8)
  {
    Words5();
    Round40();
    hide W, Working;
    Turn(41, Regs(0xd6670766, 0x79ea687a, 0x6dc57a8a, 0x34df1604, 0x26352d63, 0x1efbc0a0, 0xf0781bc8, 0xa507a53d),
      0xa81a664b, 0xf0a64f5a, 0xdf46652f, 0x838b2711);
  }

  lemma Round42()
    ensures Working(43) ==
      Regs(0x17aa0dfe, 0xdf46652f, 0xd6670766, 0x79ea687a, 0xdecd4715, 0x838b2711, 0x26352d63, 0x1efbc0a0)
  {
    Words5();
    Round41();
    hide W, Working;
    Turn(42, Regs(0xdf46652f, 0xd6670766, 0x79ea687a, 0x6dc57a8a, 0x838b2711, 0x26352d63, 0x1efbc0a0, 0xf0781bc8),
      0xc24b8b70, 0x3e246a79, 0x17aa0dfe, 0xdecd4715);
  }

  lemma Round43()
    ensures Working(44) ==
      Regs(0x9d4baf93, 0x17aa0dfe, 0xdf46652f, 0xd6670766, 0xfda24c2e, 0xdecd4715, 0x838b2711, 0x26352d63)
  {
    Words5();
    Round42();
    hide W, Working;
    Turn(43, Regs(0x17aa0dfe, 0xdf46652f, 0xd6670766, 0x79ea687a, 0xdecd4715, 0x838b2711, 0x26352d63, 0x1efbc0a0),
      0xc76c51a3, 0x27333ba3, 0x9d4baf93, 0xfda24c2e);
  }

  lemma Round44()
    ensures Working(45) ==
      Regs(0x26628815, 0x9d4baf93, 0x17aa0dfe, 0xdf46652f, 0xa80f11f0, 0xfda24c2e, 0xdecd4715, 0x838b2711)
  {
    Words5();
    Round43();
    hide W, Working;
    Turn(44, Regs(0x9d4baf93, 0x17aa0dfe, 0xdf46652f, 0xd6670766, 0xfda24c2e, 0xdecd4715, 0x838b2711, 0x26352d63),
      0xd192e819, 0x0c4763f2, 0x26628815, 0xa80f11f0);
  }

  lemma Round45()
    ensures Working(46) ==
      Regs(0x72ab4b91, 0x26628815, 0x9d4baf93, 0x17aa0dfe, 0xb7755da1, 0xa80f11f0, 0xfda24c2e, 0xdecd4715)
  {
    Words5();
    Round44();
    hide W, Working;
    Turn(45, Regs(0x26628815, 0x9d4baf93, 0x17aa0dfe, 0xdf46652f, 0xa80f11f0, 0xfda24c2e, 0xdecd4715, 0x838b2711),
      0xd6990624, 0x840abf27, 0x72ab4b91, 0xb7755da1);
  }

  lemma Round46()
    ensures Working(47) ==
      Regs(0xa14c14b0, 0x72ab4b91, 0x26628815, 0x9d4baf93, 0xd57b94a9, 0xb7755da1, 0xa80f11f0, 0xfda24c2e)
  {
    Words5();
    Round45();
    hide W, Working;
    Turn(46, Regs(0x72ab4b91, 0x26628815, 0x9d4baf93, 0x17aa0dfe, 0xb7755da1, 0xa80f11f0, 0xfda24c2e, 0xdecd4715),
      0xf40e3585, 0x7a290d5d, 0xa14c14b0, 0xd57b94a9);
  }

  lemma Round47()
    ensures Working(48) ==
      Regs(0x4172328d, 0xa14c14b0, 0x72ab4b91, 0x26628815, 0xfecf0bc6, 0xd57b94a9, 0xb7755da1, 0xa80f11f0)
  {
    Words5();
    Round46();
    hide W, Working;
    Turn(47, Regs(0xa14c14b0, 0x72ab4b91, 0x26628815, 0x9d4baf93, 0xd57b94a9, 0xb7755da1, 0xa80f11f0, 0xfda24c2e),
      0x106aa070, 0x065c43da, 0x4172328d, 0xfecf0bc6);
  }

  lemma Round48()
    ensures Working(49) ==
      Regs(0x05757ceb, 0x4172328d, 0xa14c14b0, 0x72ab4b91, 0xbd714038, 0xfecf0bc6, 0xd57b94a9, 0xb7755da1)
  {
    Words6();
    Round47();
    hide W, Working;
    Turn(48, Regs(0x4172328d, 0xa14c14b0, 0x72ab4b91, 0x26628815, 0xfecf0bc6, 0xd57b94a9, 0xb7755da1, 0xa80f11f0),
      0x19a4c116, 0xfb3e89cb, 0x05757ceb, 0xbd714038);
  }

  lemma Round49()
    ensures Working(50) ==
      Regs(0xf11bfaa8, 0x05757ceb, 0x4172328d, 0xa14c14b0, 0x6e5c390c, 0xbd714038, 0xfecf0bc6, 0xd57b94a9)
  {
    Words6();
    Round48();
    hide W, Working;
    Turn(49, Regs(0x05757ceb, 0x4172328d, 0xa14c14b0, 0x72ab4b91, 0xbd714038, 0xfecf0bc6, 0xd57b94a9, 0xb7755da1),
      0x1e376c08, 0xcc7617db, 0xf11bfaa8, 0x6e5c390c);
  }

  lemma Round50()
    ensures Working(51) ==
      Regs(0x7a0508a1, 0xf11bfaa8, 0x05757ceb, 0x4172328d, 0x52f1ccf7, 0x6e5c390c, 0xbd714038, 0xfecf0bc6)
  {
    Words6();
    Round49();
    hide W, Working;
    Turn(50, Regs(0xf11bfaa8, 0x05757ceb, 0x4172328d, 0xa14c14b0, 0x6e5c390c, 0xbd714038, 0xfecf0bc6, 0xd57b94a9),
      0x2748774c, 0xb9e66c34, 0x7a0508a1, 0x52f1ccf7);
  }

  lemma Round51()
    ensures Working(52) ==
      Regs(0x886e7a22, 0x7a0508a1, 0xf11bfaa8, 0x05757ceb, 0x49231c1e, 0x52f1ccf7, 0x6e5c390c, 0xbd714038)
  {
    Words6();
    Round50();
    hide W, Working;
    Turn(51, Regs(0x7a0508a1, 0xf11bfaa8, 0x05757ceb, 0x4172328d, 0x52f1ccf7, 0x6e5c390c, 0xbd714038, 0xfecf0bc6),
      0x34b0bcb5, 0xa9993667, 0x886e7a22, 0x49231c1e);
  }

  lemma Round52()
    ensures Working(53) ==
      Regs(0x101fd28f, 0x886e7a22, 0x7a0508a1, 0xf11bfaa8, 0x529e7d00, 0x49231c1e, 0x52f1ccf7, 0x6e5c390c)
  {
    Words6();
    Round51();
    hide W, Working;
    Turn(52, Regs(0x886e7a22, 0x7a0508a1, 0xf11bfaa8, 0x05757ceb, 0x49231c1e, 0x52f1ccf7, 0x6e5c390c, 0xbd714038),
      0x391c0cb3, 0x84badedd, 0x101fd28f, 0x529e7d00);
  }

  lemma Round53()
    ensures Working(54) ==
      Regs(0xf5702fdb, 0x101fd28f, 0x886e7a22, 0x7a0508a1, 0x9f4787c3, 0x529e7d00, 0x49231c1e, 0x52f1ccf7)
  {
    Words6();
    Round52();
    hide W, Working;
    Turn(53, Regs(0x101fd28f, 0x886e7a22, 0x7a0508a1, 0xf11bfaa8, 0x529e7d00, 0x49231c1e, 0x52f1ccf7, 0x6e5c390c),
      0x4ed8aa4a, 0xc21462bc, 0xf5702fdb, 0x9f4787c3);
  }

  lemma Round54()
    ensures Working(55) ==
      Regs(0x3ec45cdb, 0xf5702fdb, 0x101fd28f, 0x886e7a22, 0xe50e1b4f, 0x9f4787c3, 0x529e7d00, 0x49231c1e)
  {
    Words6();
    Round53();
    hide W, Working;
    Turn(54, Regs(0xf5702fdb, 0x101fd28f, 0x886e7a22, 0x7a0508a1, 0x9f4787c3, 0x529e7d00, 0x49231c1e, 0x52f1ccf7),
      0x5b9cca4f, 0x1487472c, 0x3ec45cdb, 0xe50e1b4f);
  }

  lemma Round55()
    ensures Working(56) ==
      Regs(0x38cc9913, 0x3ec45cdb, 0xf5702fdb, 0x101fd28f, 0x54cb266b, 0xe50e1b4f, 0x9f4787c3, 0x529e7d00)
  {
    Words6();
    Round54();
    hide W, Working;
    Turn(55, Regs(0x3ec45cdb, 0xf5702fdb, 0x101fd28f, 0x886e7a22, 0xe50e1b4f, 0x9f4787c3, 0x529e7d00, 0x49231c1e),
      0x682e6ff3, 0xb20f7a99, 0x38cc9913, 0x54cb266b);
  }

  lemma Round56()
    ensures Working(57) ==
      Regs(0xfcd1887b, 0x38cc9913, 0x3ec45cdb, 0xf5702fdb, 0x9b5e906c, 0x54cb266b, 0xe50e1b4f, 0x9f4787c3)
  {
    Words7();
    Round55();
    hide W, Working;
    Turn(56, Regs(0x38cc9913, 0x3ec45cdb, 0xf5702fdb, 0x101fd28f, 0x54cb266b, 0xe50e1b4f, 0x9f4787c3, 0x529e7d00),
      0x748f82ee, 0xef57b9cd, 0xfcd1887b, 0x9b5e906c);
  }

  lemma Round57()
    ensures Working(58) ==
      Regs(0xc062d46f, 0xfcd1887b, 0x38cc9913, 0x3ec45cdb, 0x7e44008e, 0x9b5e906c, 0x54cb266b, 0xe50e1b4f)
  {
    Words7();
    Round56();
    hide W, Working;
    Turn(57, Regs(0xfcd1887b, 0x38cc9913, 0x3ec45cdb, 0xf5702fdb, 0x9b5e906c, 0x54cb266b, 0xe50e1b4f, 0x9f4787c3),
      0x78a5636f, 0xebe6b238, 0xc062d46f, 0x7e44008e);
  }

  lemma Round58()
    ensures Working(59) ==
      Regs(0xffb70472, 0xc062d46f, 0xfcd1887b, 0x38cc9913, 0x6d83bfc6, 0x7e44008e, 0x9b5e906c, 0x54cb266b)
  {
    Words7();
    Round57();
    hide W, Working;
    Turn(58, Regs(0xc062d46f, 0xfcd1887b, 0x38cc9913, 0x3ec45cdb, 0x7e44008e, 0x9b5e906c, 0x54cb266b, 0xe50e1b4f),
      0x84c87814, 0x9fe3095e, 0xffb70472, 0x6d83bfc6);
  }

  lemma Round59()
    ensures Working(60) ==
      Regs(0xb6ae8fff, 0xffb70472, 0xc062d46f, 0xfcd1887b, 0xb21bad3d, 0x6d83bfc6, 0x7e44008e, 0x9b5e906c)
  {
    Words7();
    Round58();
    hide W, Working;
    Turn(59, Regs(0xffb70472, 0xc062d46f, 0xfcd1887b, 0x38cc9913, 0x6d83bfc6, 0x7e44008e, 0x9b5e906c, 0x54cb266b),
      0x8cc70208, 0x78bc8d4b, 0xb6ae8fff, 0xb21bad3d);
  }

  lemma Round60()
    ensures Working(61) ==
      Regs(0xb85e2ce9, 0xb6ae8fff, 0xffb70472, 0xc062d46f, 0x961f4894, 0xb21bad3d, 0x6d83bfc6, 0x7e44008e)
  {
    Words7();
    Round59();
    hide W, Working;
    Turn(60, Regs(0xb6ae8fff, 0xffb70472, 0xc062d46f, 0xfcd1887b, 0xb21bad3d, 0x6d83bfc6, 0x7e44008e, 0x9b5e906c),
      0x90befffa, 0xa43fcf15, 0xb85e2ce9, 0x961f4894);
  }

  lemma Round61()
    ensures Working(62) ==
      Regs(0x04d24d6c, 0xb85e2ce9, 0xb6ae8fff, 0xffb70472, 0x948d25b6, 0x961f4894, 0xb21bad3d, 0x6d83bfc6)
  {
    Words7();
    Round60();
    hide W, Working;
    Turn(61, Regs(0xb85e2ce9, 0xb6ae8fff, 0xffb70472, 0xc062d46f, 0x961f4894, 0xb21bad3d, 0x6d83bfc6, 0x7e44008e),
      0xa4506ceb, 0x668b2ff8, 0x04d24d6c, 0x948d25b6);
  }

  lemma Round62()
    ensures Working(63) ==
      Regs(0xd39a2165, 0x04d24d6c, 0xb85e2ce9, 0xb6ae8fff, 0xfb121210, 0x948d25b6, 0x961f4894, 0xb21bad3d)
  {
    Words7();
    Round61();
    hide W, Working;
    Turn(62, Regs(0x04d24d6c, 0xb85e2ce9, 0xb6ae8fff, 0xffb70472, 0x948d25b6, 0x961f4894, 0xb21bad3d, 0x6d83bfc6),
      0xbef9a3f7, 0xeeaba2cc, 0xd39a2165, 0xfb121210);
  }

  lemma Round63()
    ensures Working(64) ==
      Regs(0x506e3058, 0xd39a2165, 0x04d24d6c, 0xb85e2ce9, 0x5ef50f24, 0xfb121210, 0x948d25b6, 0x961f4894)
  {
    Words7();
    Round62();
    hide W, Working;
    Turn(63, Regs(0xd39a2165, 0x04d24d6c, 0xb85e2ce9, 0xb6ae8fff, 0xfb121210, 0x948d25b6, 0x961f4894, 0xb21bad3d),
      0xc67178f2, 0x12b1edeb, 0x506e3058, 0x5ef50f24);
  }

  lemma OneBlock()
    ensures Digest(IV, Block()) ==
      Regs(0xba7816bf, 0x8f01cfea, 0x414140de, 0x5dae2223, 0xb00361a3, 0x96177a9c, 0xb410ff61, 0xf20015ad)
  {
    Round63();
    assert [] + Block() == Block();
    DigestOne(IV, [], Block());
    DigestNone();
    assert Compress(IV, Block()) == Add(IV, Working(64));
    hide Compress, Digest, Working, Block, IV;
  }

  lemma WordOut(r: Regs, k: nat, w: word, b0: byte, b1: byte, b2: byte, b3: byte)
    requires k < 8 && Nth(r, k) == w
    requires WordByte(w, 0) == b0 && WordByte(w, 1) == b1 && WordByte(w, 2) == b2 && WordByte(w, 3) == b3
    ensures Output(r)[4 * k..4 * k + 4] == [b0, b1, b2, b3]
  {
    hide WordByte, Nth, Output;
    OutputAt(r, k, 0);
    OutputAt(r, k, 1);
    OutputAt(r, k, 2);
    OutputAt(r, k, 3);
  }

  /** The hash of `abc`. */
  lemma HashOfAbc()
    ensures Sha256(ABC) ==
      [0xba, 0x78, 0x16, 0xbf] + [0x8f, 0x01, 0xcf, 0xea] + [0x41, 0x41, 0x40, 0xde] + [0x5d, 0xae, 0x22, 0x23] +
      [0xb0, 0x03, 0x61, 0xa3] + [0x96, 0x17, 0x7a, 0x9c] + [0xb4, 0x10, 0xff, 0x61] + [0xf2, 0x00, 0x15, 0xad]
  {
    var r := Digest(IV, Block());
    assert Sha256(ABC) == Output(r) by { hide Output, Digest; }
    OneBlock();
    hide Digest, Padding, Block, Output, IV;
    WordOut(r, 0, 0xba7816bf, 0xba, 0x78, 0x16, 0xbf);
    WordOut(r, 1, 0x8f01cfea, 0x8f, 0x01, 0xcf, 0xea);
    WordOut(r, 2, 0x414140de, 0x41, 0x41, 0x40, 0xde);
    WordOut(r, 3, 0x5dae2223, 0x5d, 0xae, 0x22, 0x23);
    WordOut(r, 4, 0xb00361a3, 0xb0, 0x03, 0x61, 0xa3);
    WordOut(r, 5, 0x96177a9c, 0x96, 0x17, 0x7a, 0x9c);
    WordOut(r, 6, 0xb410ff61, 0xb4, 0x10, 0xff, 0x61);
    WordOut(r, 7, 0xf20015ad, 0xf2, 0x00, 0x15, 0xad);
    hide WordByte, Nth;
    Quarters(Output(r));
  }

  lemma Quarters(s: seq<byte>)
    requires |s| == 32
    ensures s == s[0..4] + s[4..8] + s[8..12] + s[12..16] + s[16..20] + s[20..24] + s[24..28] + s[28..32]
  {
  }
}
