/** What the generator computes bit by bit: every mixing step can be undone, outputs can be turned
    back into the state bits they show, and the published golden stream comes out. */
module StreamBits {
  import opened RandomStreams

  // --- Outputs -------------------------------------------------------------------------

  /** Turns a word left by `r` bits. */
  function TurnedLeft(w: bv32, r: bv64): bv32
    requires r < 32
  {
    (w << r) | (w >> ((32 - r) & 31))
  }

  lemma TurnsBackLow(w: bv32, r: bv64)
    requires r < 8
    ensures TurnedLeft(TurnedRight(w, r), r) == w
  {
  }

  lemma TurnsBackMiddle(w: bv32, r: bv64)
    requires 8 <= r < 16
    ensures TurnedLeft(TurnedRight(w, r), r) == w
  {
  }

  lemma TurnsBackUpper(w: bv32, r: bv64)
    requires 16 <= r < 24
    ensures TurnedLeft(TurnedRight(w, r), r) == w
  {
  }

  lemma TurnsBackHigh(w: bv32, r: bv64)
    requires 24 <= r < 32
    ensures TurnedLeft(TurnedRight(w, r), r) == w
  {
  }

  lemma TurnsBack(w: bv32, r: bv64)
    requires r < 32
    ensures TurnedLeft(TurnedRight(w, r), r) == w
  {
    hide TurnedLeft, TurnedRight;
    if r < 8 {
      TurnsBackLow(w, r);
    } else if r < 16 {
      TurnsBackMiddle(w, r);
    } else if r < 24 {
      TurnsBackUpper(w, r);
    } else {
      TurnsBackHigh(w, r);
    }
  }

  /** Turning an output left by the top five bits of the state gives back the bits it shows. */
  lemma OutputTurnsRight(p: Pcg32)
    ensures TopFive(p.state) < 32 && TurnedLeft(Output(p), TopFive(p.state)) == ShownBits(p.state)
  {
    hide TurnedLeft, TurnedRight, ShownBits, TopFive;
    TopFiveIsSmall(p.state);
    TurnsBack(ShownBits(p.state), TopFive(p.state));
  }

  // --- Steps that can be undone --------------------------------------------------------

  function Divided(x: bv64): bv64 { x * 0xc097_ef87_329e_28a5 }

  function Difference(x: bv64, y: bv64): bv64 { x - y }

  predicate MultiplierInvertsAt(y: bv64, x: bv64) { y * 0xc097_ef87_329e_28a5 == x }

  lemma MultiplierInvertsRaw(x: bv64)
    ensures MultiplierInvertsAt(x * 6_364_136_223_846_793_005, x)
  {
  }

  lemma MultiplierInverts(x: bv64)
    ensures Divided(Multiplied(x)) == x
  {
    assert MultiplierInvertsAt(Multiplied(x), x) by {
      MultiplierInvertsRaw(x);
      hide MultiplierInvertsAt;
    }
    hide Multiplied;
  }

  predicate DivisorInvertsAt(y: bv64, x: bv64) { y * 6_364_136_223_846_793_005 == x }

  lemma DivisorInvertsRaw(x: bv64)
    ensures DivisorInvertsAt(x * 0xc097_ef87_329e_28a5, x)
  {
  }

  lemma DivisorInverts(x: bv64)
    ensures Multiplied(Divided(x)) == x
  {
    assert DivisorInvertsAt(Divided(x), x) by {
      DivisorInvertsRaw(x);
      hide DivisorInvertsAt;
    }
    hide Divided;
  }

  predicate TakesAway(z: bv64, x: bv64, y: bv64) { z - y == x }

  predicate AddsBack(z: bv64, x: bv64, y: bv64) { z + y == x }

  lemma SumInvertsRaw(x: bv64, y: bv64)
    ensures TakesAway(x + y, x, y) && AddsBack(x - y, x, y)
  {
  }

  lemma DifferenceUndoes(x: bv64, y: bv64)
    ensures Difference(Sum(x, y), y) == x
  {
    assert TakesAway(Sum(x, y), x, y) by {
      SumInvertsRaw(x, y);
      hide TakesAway, AddsBack;
    }
    hide Sum;
  }

  lemma SumUndoes(x: bv64, y: bv64)
    ensures Sum(Difference(x, y), y) == x
  {
    assert AddsBack(Difference(x, y), x, y) by {
      SumInvertsRaw(x, y);
      hide TakesAway, AddsBack;
    }
    hide Difference;
  }

  /** The state before a draw. */
  function Retreat(p: Pcg32): Pcg32 {
    Pcg32(Divided(Difference(p.state, p.inc)), p.inc)
  }

  /** A draw moves the state along a permutation of all states. */
  lemma AdvanceInverts(p: Pcg32)
    ensures Retreat(Advance(p)) == p && Advance(Retreat(p)) == p
  {
    hide Divided, Multiplied, Sum, Difference;
    MultiplierInverts(p.state);
    DivisorInverts(Difference(p.state, p.inc));
    DifferenceUndoes(Multiplied(p.state), p.inc);
    SumUndoes(p.state, p.inc);
  }

  /** Streams in different states stay apart. */
  lemma DrawsStayApart(p: Pcg32, q: Pcg32)
    requires Advance(p) == Advance(q)
    ensures p == q
  {
    hide Advance, Retreat;
    AdvanceInverts(p);
    AdvanceInverts(q);
  }

  function Unfolded31(y: bv64): bv64 { y ^ (y >> 31) ^ (y >> 62) }

  function Unfolded27(y: bv64): bv64 { y ^ (y >> 27) ^ (y >> 54) }

  function Unfolded30(y: bv64): bv64 { y ^ (y >> 30) ^ (y >> 60) }

  function Unspread(x: bv64): bv64 { x * 0x96de_1b17_3f11_9089 }

  function UnspreadAgain(x: bv64): bv64 { x * 0x3196_42b2_d24d_8ec3 }

  predicate Unfolds31At(y: bv64, x: bv64) { y ^ (y >> 31) ^ (y >> 62) == x }

  lemma Unfolds31Raw(x: bv64)
    ensures Unfolds31At(x ^ (x >> 31), x)
  {
  }

  lemma Unfolds31(x: bv64)
    ensures Unfolded31(Folded31(x)) == x
  {
    assert Unfolds31At(Folded31(x), x) by {
      Unfolds31Raw(x);
      hide Unfolds31At;
    }
    hide Folded31;
  }

  predicate Unfolds27At(y: bv64, x: bv64) { y ^ (y >> 27) ^ (y >> 54) == x }

  lemma Unfolds27Raw(x: bv64)
    ensures Unfolds27At(x ^ (x >> 27), x)
  {
  }

  lemma Unfolds27(x: bv64)
    ensures Unfolded27(Folded27(x)) == x
  {
    assert Unfolds27At(Folded27(x), x) by {
      Unfolds27Raw(x);
      hide Unfolds27At;
    }
    hide Folded27;
  }

  predicate Unfolds30At(y: bv64, x: bv64) { y ^ (y >> 30) ^ (y >> 60) == x }

  lemma Unfolds30Raw(x: bv64)
    ensures Unfolds30At(x ^ (x >> 30), x)
  {
  }

  lemma Unfolds30(x: bv64)
    ensures Unfolded30(Folded30(x)) == x
  {
    assert Unfolds30At(Folded30(x), x) by {
      Unfolds30Raw(x);
      hide Unfolds30At;
    }
    hide Folded30;
  }

  predicate UnspreadsAt(y: bv64, x: bv64) { y * 0x96de_1b17_3f11_9089 == x }

  lemma UnspreadsRaw(x: bv64)
    ensures UnspreadsAt(x * 0xbf58_476d_1ce4_e5b9, x)
  {
  }

  lemma Unspreads(x: bv64)
    ensures Unspread(Spread(x)) == x
  {
    assert UnspreadsAt(Spread(x), x) by {
      UnspreadsRaw(x);
      hide UnspreadsAt;
    }
    hide Spread;
  }

  predicate UnspreadsAgainAt(y: bv64, x: bv64) { y * 0x3196_42b2_d24d_8ec3 == x }

  lemma UnspreadsAgainRaw(x: bv64)
    ensures UnspreadsAgainAt(x * 0x94d0_49bb_1331_11eb, x)
  {
  }

  lemma UnspreadsAgain(x: bv64)
    ensures UnspreadAgain(SpreadAgain(x)) == x
  {
    assert UnspreadsAgainAt(SpreadAgain(x), x) by {
      UnspreadsAgainRaw(x);
      hide UnspreadsAgainAt;
    }
    hide SpreadAgain;
  }

  function UnSplitMix64(y: bv64): bv64 {
    Difference(Unfolded30(Unspread(Unfolded27(UnspreadAgain(Unfolded31(y))))), 0x9e37_79b9_7f4a_7c15)
  }

  /** The mixing function can be undone. */
  lemma SplitMixInverts(x: bv64)
    ensures UnSplitMix64(SplitMix64(x)) == x
  {
    hide Unfolded31, Unfolded27, Unfolded30, Folded31, Folded27, Folded30;
    hide Spread, SpreadAgain, Unspread, UnspreadAgain, Sum, Difference;
    var a := Sum(x, 0x9e37_79b9_7f4a_7c15);
    var b := Spread(Folded30(a));
    var c := SpreadAgain(Folded27(b));
    Unfolds31(c);
    UnspreadsAgain(Folded27(b));
    Unfolds27(b);
    Unspreads(Folded30(a));
    Unfolds30(a);
    DifferenceUndoes(x, 0x9e37_79b9_7f4a_7c15);
  }

  /** Different numbers are mixed into different numbers. */
  lemma SplitMixIsOneToOne(x: bv64, y: bv64)
    requires SplitMix64(x) == SplitMix64(y)
    ensures x == y
  {
    hide SplitMix64, UnSplitMix64;
    SplitMixInverts(x);
    SplitMixInverts(y);
  }

  // --- Names and seeds -----------------------------------------------------------------

  lemma XorIsOneToOne(x: bv64, y: bv64, d: bv64)
    requires Xor(x, d) == Xor(y, d)
    ensures x == y
  {
  }

  lemma BytesStayApart(m: bv64, a: bv8, b: bv8)
    requires Xor(m, ByteWord(a)) == Xor(m, ByteWord(b))
    ensures a == b
  {
  }

  /** Mixing one name keeps different starting points apart. */
  lemma {:induction false} MixingIsOneToOne(x: bv64, y: bv64, name: Name)
    requires MixName(x, name) == MixName(y, name)
    ensures x == y
    decreases |name|
  {
    hide SplitMix64, Xor, ByteWord;
    if name != [] {
      var byte := ByteWord(name[0]);
      MixingIsOneToOne(SplitMix64(Xor(x, byte)), SplitMix64(Xor(y, byte)), name[1..]);
      SplitMixIsOneToOne(Xor(x, byte), Xor(y, byte));
      XorIsOneToOne(x, y, byte);
    }
  }

  ghost predicate DifferAtOne(a: Name, b: Name, k: nat) {
    |a| == |b| && k < |a| && a[k] != b[k] && forall i :: 0 <= i < |a| && i != k ==> a[i] == b[i]
  }

  lemma FirstByteMatters(m: bv64, a: Name, b: Name)
    requires DifferAtOne(a, b, 0)
    ensures MixName(m, a) != MixName(m, b)
  {
    hide SplitMix64, Xor, ByteWord;
    var x, y := Xor(m, ByteWord(a[0])), Xor(m, ByteWord(b[0]));
    assert a[1..] == b[1..];
    if MixName(m, a) == MixName(m, b) {
      MixingIsOneToOne(SplitMix64(x), SplitMix64(y), a[1..]);
      SplitMixIsOneToOne(x, y);
      BytesStayApart(m, a[0], b[0]);
      assert false;
    }
  }

  lemma {:induction false} OneByteMatters(m: bv64, a: Name, b: Name, k: nat)
    requires DifferAtOne(a, b, k)
    ensures MixName(m, a) != MixName(m, b)
    decreases |a|
  {
    hide SplitMix64, Xor, ByteWord;
    if k == 0 {
      FirstByteMatters(m, a, b);
    } else {
      OneByteMatters(SplitMix64(Xor(m, ByteWord(a[0]))), a[1..], b[1..], k - 1);
    }
  }

  lemma EqualStatesEqualMixes(seed: bv64, name: Name, other: bv64, another: Name)
    requires DeriveStream(seed, name).state == DeriveStream(other, another).state
    ensures MixedName(seed, name) == MixedName(other, another)
  {
    hide SplitMix64, MixedName, Xor, MadeOdd;
    var x, y := MixedName(seed, name), MixedName(other, another);
    SplitMixIsOneToOne(Xor(x, STATE_DOMAIN), Xor(y, STATE_DOMAIN));
    XorIsOneToOne(x, y, STATE_DOMAIN);
  }

  /** Names that differ in one byte start their streams in different states. */
  lemma NamesStartApart(seed: bv64, a: Name, b: Name, k: nat)
    requires DifferAtOne(a, b, k)
    ensures DeriveStream(seed, a).state != DeriveStream(seed, b).state
  {
    hide SplitMix64, MixName, DeriveStream, Xor, LengthWord;
    OneByteMatters(Xor(seed, SplitMix64(LengthWord(|a|))), a, b, k);
    if DeriveStream(seed, a).state == DeriveStream(seed, b).state {
      EqualStatesEqualMixes(seed, a, seed, b);
      assert false;
    }
  }

  /** Different seeds start the stream of one name in different states. */
  lemma SeedsStartApart(seed: bv64, other: bv64, name: Name)
    requires DeriveStream(seed, name).state == DeriveStream(other, name).state
    ensures seed == other
  {
    hide SplitMix64, MixName, DeriveStream, Xor, LengthWord;
    EqualStatesEqualMixes(seed, name, other, name);
    var length := SplitMix64(LengthWord(|name|));
    MixingIsOneToOne(Xor(seed, length), Xor(other, length), name);
    XorIsOneToOne(seed, other, length);
  }

  // --- The golden stream ---------------------------------------------------------------

  const GOLDEN_SEED: bv64 := 0x0123_4567_89ab_cdef
  /** The bytes of `golden`. */
  const GOLDEN_NAME: Name := [0x67, 0x6f, 0x6c, 0x64, 0x65, 0x6e]

  /** The stages of one mixing. */
  lemma Mixes(x: bv64, a: bv64, b: bv64, c: bv64, d: bv64, e: bv64, y: bv64)
    requires Sum(x, 0x9e37_79b9_7f4a_7c15) == a && Folded30(a) == b && Spread(b) == c
    requires Folded27(c) == d && SpreadAgain(d) == e && Folded31(e) == y
    ensures SplitMix64(x) == y
  {
    hide Sum, Folded30, Spread, Folded27, SpreadAgain, Folded31;
  }

  lemma GoldenLength()
    ensures SplitMix64(0x0000_0000_0000_0006) == 0xbd64_a5d9_adef_e000
  {
    Mixes(0x0000_0000_0000_0006, 0x9e37_79b9_7f4a_7c1b, 0x9e37_79bb_0797_9afe, 0xe63c_0e12_ec6c_378e,
          0xe63c_0e0e_2bed_f5d3, 0xbd64_a5d8_d726_abb1, 0xbd64_a5d9_adef_e000);
  }

  lemma GoldenByte0()
    ensures SplitMix64(0xbc47_e0be_2444_2d88) == 0x3b13_e51a_2610_da36
  {
    Mixes(0xbc47_e0be_2444_2d88, 0x5a7f_5a77_a38e_a99d, 0x5a7f_5a76_ca73_c043, 0x4389_0c97_684d_df6b,
          0x4389_0c9f_196c_4d86, 0x3b13_e51a_5037_1002, 0x3b13_e51a_2610_da36);
  }

  lemma GoldenByte1()
    ensures SplitMix64(0x3b13_e51a_2610_da59) == 0x8735_0987_184d_52a9
  {
    Mixes(0x3b13_e51a_2610_da59, 0xd94b_5ed3_a55b_566e, 0xd94b_5ed0_c076_2d20, 0xd615_add4_7c44_3c20,
          0xd615_adce_bef1_86af, 0x8735_0986_1627_41a5, 0x8735_0987_184d_52a9);
  }

  lemma GoldenByte2()
    ensures SplitMix64(0x8735_0987_184d_52c5) == 0x2007_305c_4943_f1c4
  {
    Mixes(0x8735_0987_184d_52c5, 0x256c_8340_9797_ceda, 0x256c_8340_0225_c3d8, 0xdfb6_7133_61da_bf18,
          0xdfb6_7128_9714_9974, 0x2007_305c_094d_917c, 0x2007_305c_4943_f1c4);
  }

  lemma GoldenByte3()
    ensures SplitMix64(0x2007_305c_4943_f1a0) == 0x2bc8_5ba8_20df_1dc5
  {
    Mixes(0x2007_305c_4943_f1a0, 0xbe3e_aa15_c88e_6db5, 0xbe3e_aa17_3074_c5e2, 0x37ad_85f9_6eae_2a52,
          0x37ad_85ff_9b1e_957f, 0x2bc8_5ba8_774f_aa95, 0x2bc8_5ba8_20df_1dc5);
  }

  lemma GoldenByte4()
    ensures SplitMix64(0x2bc8_5ba8_20df_1da0) == 0xbc1a_6591_51fb_f941
  {
    Mixes(0x2bc8_5ba8_20df_1da0, 0xc9ff_d561_a029_99b5, 0xc9ff_d562_87d6_cc33, 0x4dfd_e811_c04f_2fdb,
          0x4dfd_e818_7ff2_2de3, 0xbc1a_6590_29cf_3261, 0xbc1a_6591_51fb_f941);
  }

  lemma GoldenByte5()
    ensures SplitMix64(0xbc1a_6591_51fb_f92f) == 0xbadb_a633_1aa4_0c26
  {
    Mixes(0xbc1a_6591_51fb_f92f, 0x5a51_df4a_d146_7544, 0x5a51_df4b_b801_086f, 0x0268_776b_8c26_6337,
          0x0268_776b_c128_8e46, 0xbadb_a632_6f13_4042, 0xbadb_a633_1aa4_0c26);
  }

  lemma GoldenState()
    ensures SplitMix64(0x9ee4_ccbb_9f07_04f5) == 0x9bf5_893c_bfab_3f66
  {
    Mixes(0x9ee4_ccbb_9f07_04f5, 0x3d1c_4675_1e51_810a, 0x3d1c_4675_ea20_98de, 0x03ad_23eb_c805_0e6e,
          0x03ad_23eb_bda1_7317, 0x9bf5_893d_8840_2d1d, 0x9bf5_893c_bfab_3f66);
  }

  lemma GoldenIncrement()
    ensures SplitMix64(0xa9c2_2c1d_19d4_7f62) == 0x96c2_61d5_dfb5_a69e
  {
    Mixes(0xa9c2_2c1d_19d4_7f62, 0x47f9_a5d6_991e_fb77, 0x47f9_a5d7_86f8_6c2d, 0xbbb8_8fbb_065e_6d85,
          0xbbb8_8fac_714f_9ae5, 0x96c2_61d4_f231_6537, 0x96c2_61d5_dfb5_a69e);
  }

  lemma SixLong()
    ensures LengthWord(6) == 0x0000_0000_0000_0006
  {
    assert LengthWord(2) == 2;
    assert LengthWord(4) == 4;
  }

  lemma GoldenWordsOfBits()
    ensures Xor(GOLDEN_SEED, 0xbd64_a5d9_adef_e000) == 0xbc47_e0be_2444_2def
    ensures Xor(0xbc47_e0be_2444_2def, ByteWord(0x67)) == 0xbc47_e0be_2444_2d88
    ensures Xor(0x3b13_e51a_2610_da36, ByteWord(0x6f)) == 0x3b13_e51a_2610_da59
    ensures Xor(0x8735_0987_184d_52a9, ByteWord(0x6c)) == 0x8735_0987_184d_52c5
    ensures Xor(0x2007_305c_4943_f1c4, ByteWord(0x64)) == 0x2007_305c_4943_f1a0
    ensures Xor(0x2bc8_5ba8_20df_1dc5, ByteWord(0x65)) == 0x2bc8_5ba8_20df_1da0
    ensures Xor(0xbc1a_6591_51fb_f941, ByteWord(0x6e)) == 0xbc1a_6591_51fb_f92f
    ensures Xor(0xbadb_a633_1aa4_0c26, STATE_DOMAIN) == 0x9ee4_ccbb_9f07_04f5
    ensures Xor(0xbadb_a633_1aa4_0c26, STREAM_DOMAIN) == 0xa9c2_2c1d_19d4_7f62
    ensures MadeOdd(0x96c2_61d5_dfb5_a69e) == 0x96c2_61d5_dfb5_a69f
  {
  }

  lemma MixStep(m: bv64, byte: bv8, rest: Name, mixed: bv64, next: bv64)
    requires Xor(m, ByteWord(byte)) == mixed && SplitMix64(mixed) == next
    ensures MixName(m, [byte] + rest) == MixName(next, rest)
  {
    hide SplitMix64, Xor, ByteWord;
    assert ([byte] + rest)[1..] == rest;
  }

  lemma GoldenName()
    ensures MixName(0xbc47_e0be_2444_2def, GOLDEN_NAME) == 0xbadb_a633_1aa4_0c26
  {
    hide SplitMix64, Xor, ByteWord, MadeOdd, LengthWord;
    GoldenWordsOfBits();
    GoldenByte0();
    MixStep(0xbc47_e0be_2444_2def, 0x67, [0x6f, 0x6c, 0x64, 0x65, 0x6e], 0xbc47_e0be_2444_2d88, 0x3b13_e51a_2610_da36);
    assert [0x67] + [0x6f, 0x6c, 0x64, 0x65, 0x6e] == [0x67, 0x6f, 0x6c, 0x64, 0x65, 0x6e];
    GoldenByte1();
    MixStep(0x3b13_e51a_2610_da36, 0x6f, [0x6c, 0x64, 0x65, 0x6e], 0x3b13_e51a_2610_da59, 0x8735_0987_184d_52a9);
    assert [0x6f] + [0x6c, 0x64, 0x65, 0x6e] == [0x6f, 0x6c, 0x64, 0x65, 0x6e];
    GoldenByte2();
    MixStep(0x8735_0987_184d_52a9, 0x6c, [0x64, 0x65, 0x6e], 0x8735_0987_184d_52c5, 0x2007_305c_4943_f1c4);
    assert [0x6c] + [0x64, 0x65, 0x6e] == [0x6c, 0x64, 0x65, 0x6e];
    GoldenByte3();
    MixStep(0x2007_305c_4943_f1c4, 0x64, [0x65, 0x6e], 0x2007_305c_4943_f1a0, 0x2bc8_5ba8_20df_1dc5);
    assert [0x64] + [0x65, 0x6e] == [0x64, 0x65, 0x6e];
    GoldenByte4();
    MixStep(0x2bc8_5ba8_20df_1dc5, 0x65, [0x6e], 0x2bc8_5ba8_20df_1da0, 0xbc1a_6591_51fb_f941);
    assert [0x65] + [0x6e] == [0x65, 0x6e];
    GoldenByte5();
    MixStep(0xbc1a_6591_51fb_f941, 0x6e, [], 0xbc1a_6591_51fb_f92f, 0xbadb_a633_1aa4_0c26);
    assert [0x6e] + [] == [0x6e];
  }

  lemma GoldenStart()
    ensures DeriveStream(GOLDEN_SEED, GOLDEN_NAME) == Pcg32(0x9bf5_893c_bfab_3f66, 0x96c2_61d5_dfb5_a69f)
  {
    hide SplitMix64, Xor, MadeOdd, LengthWord, MixName;
    GoldenWordsOfBits();
    SixLong();
    GoldenLength();
    GoldenName();
    GoldenState();
    GoldenIncrement();
    assert |GOLDEN_NAME| == 6;
  }

  lemma GoldenSteps()
    ensures Advance(Pcg32(0x9bf5_893c_bfab_3f66, 0x96c2_61d5_dfb5_a69f)) ==
            Pcg32(0xc210_6705_b3a1_658d, 0x96c2_61d5_dfb5_a69f)
    ensures Advance(Pcg32(0xc210_6705_b3a1_658d, 0x96c2_61d5_dfb5_a69f)) ==
            Pcg32(0x802c_06d2_7b86_7368, 0x96c2_61d5_dfb5_a69f)
    ensures Advance(Pcg32(0x802c_06d2_7b86_7368, 0x96c2_61d5_dfb5_a69f)) ==
            Pcg32(0x8b99_38e9_5520_87e7, 0x96c2_61d5_dfb5_a69f)
    ensures Output(Pcg32(0x9bf5_893c_bfab_3f66, 0x96c2_61d5_dfb5_a69f)) == 3_204_935_638
    ensures Output(Pcg32(0xc210_6705_b3a1_658d, 0x96c2_61d5_dfb5_a69f)) == 183_514_434
    ensures Output(Pcg32(0x802c_06d2_7b86_7368, 0x96c2_61d5_dfb5_a69f)) == 3_677_291_908
    ensures Output(Pcg32(0x8b99_38e9_5520_87e7, 0x96c2_61d5_dfb5_a69f)) == 2_700_196_241
  {
  }

  /** The first words of the golden stream are the published ones. */
  lemma GoldenWords()
    ensures Words(GOLDEN_SEED, GOLDEN_NAME, 4) == [3_204_935_638, 183_514_434, 3_677_291_908, 2_700_196_241]
  {
    GoldenStart();
    GoldenSteps();
    hide DeriveStream, Advance, Output;
    assert After(GOLDEN_SEED, GOLDEN_NAME, 0) == Pcg32(0x9bf5_893c_bfab_3f66, 0x96c2_61d5_dfb5_a69f);
    assert After(GOLDEN_SEED, GOLDEN_NAME, 1) == Pcg32(0xc210_6705_b3a1_658d, 0x96c2_61d5_dfb5_a69f);
    assert After(GOLDEN_SEED, GOLDEN_NAME, 2) == Pcg32(0x802c_06d2_7b86_7368, 0x96c2_61d5_dfb5_a69f);
    assert After(GOLDEN_SEED, GOLDEN_NAME, 3) == Pcg32(0x8b99_38e9_5520_87e7, 0x96c2_61d5_dfb5_a69f);
    assert Words(GOLDEN_SEED, GOLDEN_NAME, 0) == [];
    assert Words(GOLDEN_SEED, GOLDEN_NAME, 1) == [3_204_935_638];
    assert Words(GOLDEN_SEED, GOLDEN_NAME, 2) == [3_204_935_638, 183_514_434];
    assert Words(GOLDEN_SEED, GOLDEN_NAME, 3) == [3_204_935_638, 183_514_434, 3_677_291_908];
  }
}
