/** The one-block example of FIPS 180-4: the digest of "abc", computed round by round on bit
    vectors. */
module Sha256Example {
  import opened Bytes
  import opened BlockHash
  import opened Endian
  import opened Words
  import opened Sha256Words
  import opened Fips180

  const ABC: seq<Byte> := [0x61, 0x62, 0x63]

  /** The message schedule of the example. */
  function W(t: nat): Word
    requires t < 64
  {
    if t < 16 then
    [0x61626380, 0x00000000, 0x00000000, 0x00000000, 0x00000000, 0x00000000, 0x00000000, 0x00000000,
     0x00000000, 0x00000000, 0x00000000, 0x00000000, 0x00000000, 0x00000000, 0x00000000, 0x00000018][t]
    else if t < 32 then
    [0x61626380, 0x000f0000, 0x7da86405, 0x600003c6, 0x3e9d7b78, 0x0183fc00, 0x12dcbfdb, 0xe2e2c38e,
     0xc8215c1a, 0xb73679a2, 0xe5bc3909, 0x32663c5b, 0x9d209d67, 0xec8726cb, 0x702138a4, 0xd3b7973b][t - 16]
    else if t < 48 then
    [0x93f5997f, 0x3b68ba73, 0xaff4ffc1, 0xf10a5c62, 0x0a8b3996, 0x72af830a, 0x9409e33e, 0x24641522,
     0x9f47bf94, 0xf0a64f5a, 0x3e246a79, 0x27333ba3, 0x0c4763f2, 0x840abf27, 0x7a290d5d, 0x065c43da][t - 32]
    else
    [0xfb3e89cb, 0xcc7617db, 0xb9e66c34, 0xa9993667, 0x84badedd, 0xc21462bc, 0x1487472c, 0xb20f7a99,
     0xef57b9cd, 0xebe6b238, 0x9fe3095e, 0x78bc8d4b, 0xa43fcf15, 0x668b2ff8, 0xeeaba2cc, 0x12b1edeb][t - 48]
  }

  ghost predicate Scheduled(b: Block, n: nat)
    requires n <= 64
  {
    forall t: nat :: t < n ==> Schedule(b, t) == W(t)
  }

  lemma ScheduleAt(b: Block, n: nat, t: nat)
    requires t < n <= 64 && Scheduled(b, n)
    ensures Schedule(b, t) == W(t)
  {}

  function Sigma0(x: bv32): bv32 { x.RotateRight(2) ^ x.RotateRight(13) ^ x.RotateRight(22) }
  function Sigma1(x: bv32): bv32 { x.RotateRight(6) ^ x.RotateRight(11) ^ x.RotateRight(25) }
  function Little0(x: bv32): bv32 { x.RotateRight(7) ^ x.RotateRight(18) ^ (x >> 3) }
  function Little1(x: bv32): bv32 { x.RotateRight(17) ^ x.RotateRight(19) ^ (x >> 10) }
  function Choice(x: bv32, y: bv32, z: bv32): bv32 { (x & y) ^ (!x & z) }
  function Majority(x: bv32, y: bv32, z: bv32): bv32 { (x & y) ^ (x & z) ^ (y & z) }

  lemma OnBits(x: Word, y: Word, z: Word)
    ensures BigSigma0(x) == Value(Sigma0(Bits(x))) && BigSigma1(x) == Value(Sigma1(Bits(x)))
    ensures SmallSigma0(x) == Value(Little0(Bits(x))) && SmallSigma1(x) == Value(Little1(Bits(x)))
    ensures Ch(x, y, z) == Value(Choice(Bits(x), Bits(y), Bits(z)))
    ensures Maj(x, y, z) == Value(Majority(Bits(x), Bits(y), Bits(z)))
  {
    hide Bits, Value;
  }

  /** The word functions on the values of bit vectors. */
  lemma OnValues(x: bv32, y: bv32, z: bv32)
    ensures BigSigma0(Value(x)) == Value(Sigma0(x)) && BigSigma1(Value(x)) == Value(Sigma1(x))
    ensures SmallSigma0(Value(x)) == Value(Little0(x)) && SmallSigma1(Value(x)) == Value(Little1(x))
    ensures Ch(Value(x), Value(y), Value(z)) == Value(Choice(x, y, z))
    ensures Maj(Value(x), Value(y), Value(z)) == Value(Majority(x, y, z))
  {
    hide *;
    OnBits(Value(x), Value(y), Value(z));
    SameBits(x);
    SameBits(y);
    SameBits(z);
  }

  /** One more schedule word: `y` and `z` are the words two and fifteen before it. */
  lemma Extend(b: Block, t: nat, y: bv32, z: bv32)
    requires 16 <= t < 64 && Scheduled(b, t) && Value(y) == W(t - 2) && Value(z) == W(t - 15)
    requires (Value(Little1(y)) + W(t - 7) + Value(Little0(z)) + W(t - 16)) % MODULUS == W(t)
    ensures Scheduled(b, t + 1)
  {
    hide SmallSigma0, SmallSigma1, Little0, Little1, W, Value, Bits, Scheduled;
    OnValues(y, y, y);
    OnValues(z, z, z);
    ScheduleAt(b, t, t - 2);
    ScheduleAt(b, t, t - 7);
    ScheduleAt(b, t, t - 15);
    ScheduleAt(b, t, t - 16);
    AddFour(SmallSigma1(W(t - 2)), W(t - 7), SmallSigma0(W(t - 15)), W(t - 16));
    ScheduledMore(b, t);
  }

  lemma ScheduledMore(b: Block, t: nat)
    requires t < 64 && Scheduled(b, t) && Schedule(b, t) == W(t)
    ensures Scheduled(b, t + 1)
  {
    hide Schedule, W;
  }

  lemma Extend16(b: Block)
    requires Scheduled(b, 16)
    ensures Scheduled(b, 19)
  {
    hide Scheduled;
    Extend(b, 16, 0x00000000, 0x00000000);
    Extend(b, 17, 0x00000018, 0x00000000);
    Extend(b, 18, 0x61626380, 0x00000000);
  }

  lemma Extend19(b: Block)
    requires Scheduled(b, 19)
    ensures Scheduled(b, 22)
  {
    hide Scheduled;
    Extend(b, 19, 0x000f0000, 0x00000000);
    Extend(b, 20, 0x7da86405, 0x00000000);
    Extend(b, 21, 0x600003c6, 0x00000000);
  }

  lemma Extend22(b: Block)
    requires Scheduled(b, 22)
    ensures Scheduled(b, 25)
  {
    hide Scheduled;
    Extend(b, 22, 0x3e9d7b78, 0x00000000);
    Extend(b, 23, 0x0183fc00, 0x00000000);
    Extend(b, 24, 0x12dcbfdb, 0x00000000);
  }

  lemma Extend25(b: Block)
    requires Scheduled(b, 25)
    ensures Scheduled(b, 28)
  {
    hide Scheduled;
    Extend(b, 25, 0xe2e2c38e, 0x00000000);
    Extend(b, 26, 0xc8215c1a, 0x00000000);
    Extend(b, 27, 0xb73679a2, 0x00000000);
  }

  lemma Extend28(b: Block)
    requires Scheduled(b, 28)
    ensures Scheduled(b, 31)
  {
    hide Scheduled;
    Extend(b, 28, 0xe5bc3909, 0x00000000);
    Extend(b, 29, 0x32663c5b, 0x00000000);
    Extend(b, 30, 0x9d209d67, 0x00000018);
  }

  lemma Extend31(b: Block)
    requires Scheduled(b, 31)
    ensures Scheduled(b, 34)
  {
    hide Scheduled;
    Extend(b, 31, 0xec8726cb, 0x61626380);
    Extend(b, 32, 0x702138a4, 0x000f0000);
    Extend(b, 33, 0xd3b7973b, 0x7da86405);
  }

  lemma Extend34(b: Block)
    requires Scheduled(b, 34)
    ensures Scheduled(b, 37)
  {
    hide Scheduled;
    Extend(b, 34, 0x93f5997f, 0x600003c6);
    Extend(b, 35, 0x3b68ba73, 0x3e9d7b78);
    Extend(b, 36, 0xaff4ffc1, 0x0183fc00);
  }

  lemma Extend37(b: Block)
    requires Scheduled(b, 37)
    ensures Scheduled(b, 40)
  {
    hide Scheduled;
    Extend(b, 37, 0xf10a5c62, 0x12dcbfdb);
    Extend(b, 38, 0x0a8b3996, 0xe2e2c38e);
    Extend(b, 39, 0x72af830a, 0xc8215c1a);
  }

  lemma Extend40(b: Block)
    requires Scheduled(b, 40)
    ensures Scheduled(b, 43)
  {
    hide Scheduled;
    Extend(b, 40, 0x9409e33e, 0xb73679a2);
    Extend(b, 41, 0x24641522, 0xe5bc3909);
    Extend(b, 42, 0x9f47bf94, 0x32663c5b);
  }

  lemma Extend43(b: Block)
    requires Scheduled(b, 43)
    ensures Scheduled(b, 46)
  {
    hide Scheduled;
    Extend(b, 43, 0xf0a64f5a, 0x9d209d67);
    Extend(b, 44, 0x3e246a79, 0xec8726cb);
    Extend(b, 45, 0x27333ba3, 0x702138a4);
  }

  lemma Extend46(b: Block)
    requires Scheduled(b, 46)
    ensures Scheduled(b, 49)
  {
    hide Scheduled;
    Extend(b, 46, 0x0c4763f2, 0xd3b7973b);
    Extend(b, 47, 0x840abf27, 0x93f5997f);
    Extend(b, 48, 0x7a290d5d, 0x3b68ba73);
  }

  lemma Extend49(b: Block)
    requires Scheduled(b, 49)
    ensures Scheduled(b, 52)
  {
    hide Scheduled;
    Extend(b, 49, 0x065c43da, 0xaff4ffc1);
    Extend(b, 50, 0xfb3e89cb, 0xf10a5c62);
    Extend(b, 51, 0xcc7617db, 0x0a8b3996);
  }

  lemma Extend52(b: Block)
    requires Scheduled(b, 52)
    ensures Scheduled(b, 55)
  {
    hide Scheduled;
    Extend(b, 52, 0xb9e66c34, 0x72af830a);
    Extend(b, 53, 0xa9993667, 0x9409e33e);
    Extend(b, 54, 0x84badedd, 0x24641522);
  }

  lemma Extend55(b: Block)
    requires Scheduled(b, 55)
    ensures Scheduled(b, 58)
  {
    hide Scheduled;
    Extend(b, 55, 0xc21462bc, 0x9f47bf94);
    Extend(b, 56, 0x1487472c, 0xf0a64f5a);
    Extend(b, 57, 0xb20f7a99, 0x3e246a79);
  }

  lemma Extend58(b: Block)
    requires Scheduled(b, 58)
    ensures Scheduled(b, 61)
  {
    hide Scheduled;
    Extend(b, 58, 0xef57b9cd, 0x27333ba3);
    Extend(b, 59, 0xebe6b238, 0x0c4763f2);
    Extend(b, 60, 0x9fe3095e, 0x840abf27);
  }

  lemma Extend61(b: Block)
    requires Scheduled(b, 61)
    ensures Scheduled(b, 64)
  {
    hide Scheduled;
    Extend(b, 61, 0x78bc8d4b, 0x7a290d5d);
    Extend(b, 62, 0xa43fcf15, 0x065c43da);
    Extend(b, 63, 0x668b2ff8, 0xfb3e89cb);
  }

  function Eight(a: bv32, b: bv32, c: bv32, d: bv32, e: bv32, f: bv32, g: bv32, h: bv32): Regs
  {
    Regs(Value(a), Value(b), Value(c), Value(d), Value(e), Value(f), Value(g), Value(h))
  }

  lemma AddFive(x: Word, y: Word, z: Word, u: Word, v: Word)
    ensures Add(Add(Add(Add(x, y), z), u), v) == (x + y + z + u + v) % MODULUS
  {
    AddFour(x, y, z, u);
    var w := (x + y + z + u) % MODULUS;
    assert Add(w, v) == (w + v) % MODULUS;
    ModPlus(x + y + z + u, v);
  }

  lemma ModBoth(x: nat, y: nat)
    ensures (x % MODULUS + y % MODULUS) % MODULUS == (x + y) % MODULUS
  {
    ModPlus(x, y % MODULUS);
    ModPlus(y, x);
  }

  lemma RoundSums(v: Regs, w: Word, k: Word, a': Word, e': Word)
    requires (v.h + BigSigma1(v.e) + Ch(v.e, v.f, v.g) + k + w + v.d) % MODULUS == e'
    requires (v.h + BigSigma1(v.e) + Ch(v.e, v.f, v.g) + k + w + BigSigma0(v.a) + Maj(v.a, v.b, v.c)) % MODULUS == a'
    ensures Round(v, w, k) == Regs(a', v.a, v.b, v.c, e', v.e, v.f, v.g)
  {
    hide BigSigma0, BigSigma1, Ch, Maj;
    var t1 := v.h + BigSigma1(v.e) + Ch(v.e, v.f, v.g) + k + w;
    AddFive(v.h, BigSigma1(v.e), Ch(v.e, v.f, v.g), k, w);
    ModPlus(t1, v.d);
    ModBoth(t1, BigSigma0(v.a) + Maj(v.a, v.b, v.c));
  }

  /** One round from registers given as bit vectors. */
  lemma Mix(block: Block, t: nat, a: bv32, b: bv32, c: bv32, d: bv32, e: bv32, f: bv32, g: bv32, h: bv32,
            a': bv32, e': bv32)
    requires t < 64 && Scheduled(block, 64) && Rounds(IV, block, t) == Eight(a, b, c, d, e, f, g, h)
    requires (Value(h) + Value(Sigma1(e)) + Value(Choice(e, f, g)) + K(t) + W(t) + Value(d)) % MODULUS == Value(e')
    requires (Value(h) + Value(Sigma1(e)) + Value(Choice(e, f, g)) + K(t) + W(t) + Value(Sigma0(a))
              + Value(Majority(a, b, c))) % MODULUS == Value(a')
    ensures Rounds(IV, block, t + 1) == Eight(a', a, b, c, e', e, f, g)
  {
    hide BigSigma0, BigSigma1, Ch, Maj, K, W, Schedule, Value, Bits, Sigma0, Sigma1, Choice, Majority, Scheduled, Round;
    OnValues(e, f, g);
    OnValues(a, b, c);
    ScheduleAt(block, 64, t);
    RoundSums(Eight(a, b, c, d, e, f, g, h), W(t), K(t), Value(a'), Value(e'));
  }

  lemma Rounds0(b: Block)
    requires Scheduled(b, 64)
          && Rounds(IV, b, 0)
                == Eight(0x6a09e667, 0xbb67ae85, 0x3c6ef372, 0xa54ff53a, 0x510e527f, 0x9b05688c, 0x1f83d9ab, 0x5be0cd19)
    ensures Rounds(IV, b, 2)
         == Eight(0x5a6ad9ad, 0x5d6aebcd, 0x6a09e667, 0xbb67ae85, 0x78ce7989, 0xfa2a4622, 0x510e527f, 0x9b05688c)
  {
    hide Scheduled, Rounds;
    Mix(b, 0, 0x6a09e667, 0xbb67ae85, 0x3c6ef372, 0xa54ff53a, 0x510e527f, 0x9b05688c, 0x1f83d9ab, 0x5be0cd19,
        0x5d6aebcd, 0xfa2a4622);
    Mix(b, 1, 0x5d6aebcd, 0x6a09e667, 0xbb67ae85, 0x3c6ef372, 0xfa2a4622, 0x510e527f, 0x9b05688c, 0x1f83d9ab,
        0x5a6ad9ad, 0x78ce7989);
  }

  lemma Rounds2(b: Block)
    requires Scheduled(b, 64)
          && Rounds(IV, b, 2)
                == Eight(0x5a6ad9ad, 0x5d6aebcd, 0x6a09e667, 0xbb67ae85, 0x78ce7989, 0xfa2a4622, 0x510e527f, 0x9b05688c)
    ensures Rounds(IV, b, 4)
         == Eight(0xd550f666, 0xc8c347a7, 0x5a6ad9ad, 0x5d6aebcd, 0x24e00850, 0xf92939eb, 0x78ce7989, 0xfa2a4622)
  {
    hide Scheduled, Rounds;
    Mix(b, 2, 0x5a6ad9ad, 0x5d6aebcd, 0x6a09e667, 0xbb67ae85, 0x78ce7989, 0xfa2a4622, 0x510e527f, 0x9b05688c,
        0xc8c347a7, 0xf92939eb);
    Mix(b, 3, 0xc8c347a7, 0x5a6ad9ad, 0x5d6aebcd, 0x6a09e667, 0xf92939eb, 0x78ce7989, 0xfa2a4622, 0x510e527f,
        0xd550f666, 0x24e00850);
  }

  lemma Rounds4(b: Block)
    requires Scheduled(b, 64)
          && Rounds(IV, b, 4)
                == Eight(0xd550f666, 0xc8c347a7, 0x5a6ad9ad, 0x5d6aebcd, 0x24e00850, 0xf92939eb, 0x78ce7989, 0xfa2a4622)
    ensures Rounds(IV, b, 8)
         == Eight(0x85a07b5f, 0xe5030380, 0x2b4209f5, 0x04409a6a, 0x0c657a79, 0x9b27a401, 0x714260ad, 0x43ada245)
  {
    hide Scheduled, Rounds;
    Mix(b, 4, 0xd550f666, 0xc8c347a7, 0x5a6ad9ad, 0x5d6aebcd, 0x24e00850, 0xf92939eb, 0x78ce7989, 0xfa2a4622,
        0x04409a6a, 0x43ada245);
    Mix(b, 5, 0x04409a6a, 0xd550f666, 0xc8c347a7, 0x5a6ad9ad, 0x43ada245, 0x24e00850, 0xf92939eb, 0x78ce7989,
        0x2b4209f5, 0x714260ad);
    Mix(b, 6, 0x2b4209f5, 0x04409a6a, 0xd550f666, 0xc8c347a7, 0x714260ad, 0x43ada245, 0x24e00850, 0xf92939eb,
        0xe5030380, 0x9b27a401);
    Mix(b, 7, 0xe5030380, 0x2b4209f5, 0x04409a6a, 0xd550f666, 0x9b27a401, 0x714260ad, 0x43ada245, 0x24e00850,
        0x85a07b5f, 0x0c657a79);
  }

  lemma Rounds8(b: Block)
    requires Scheduled(b, 64)
          && Rounds(IV, b, 8)
                == Eight(0x85a07b5f, 0xe5030380, 0x2b4209f5, 0x04409a6a, 0x0c657a79, 0x9b27a401, 0x714260ad, 0x43ada245)
    ensures Rounds(IV, b, 12)
         == Eight(0xf71fc5a9, 0x4798a3f4, 0x8c87346b, 0x8e04ecb9, 0x816fd6e9, 0x436b23e8, 0x1cc92596, 0x32ca2d8c)
  {
    hide Scheduled, Rounds;
    Mix(b, 8, 0x85a07b5f, 0xe5030380, 0x2b4209f5, 0x04409a6a, 0x0c657a79, 0x9b27a401, 0x714260ad, 0x43ada245,
        0x8e04ecb9, 0x32ca2d8c);
    Mix(b, 9, 0x8e04ecb9, 0x85a07b5f, 0xe5030380, 0x2b4209f5, 0x32ca2d8c, 0x0c657a79, 0x9b27a401, 0x714260ad,
        0x8c87346b, 0x1cc92596);
    Mix(b, 10, 0x8c87346b, 0x8e04ecb9, 0x85a07b5f, 0xe5030380, 0x1cc92596, 0x32ca2d8c, 0x0c657a79, 0x9b27a401,
        0x4798a3f4, 0x436b23e8);
    Mix(b, 11, 0x4798a3f4, 0x8c87346b, 0x8e04ecb9, 0x85a07b5f, 0x436b23e8, 0x1cc92596, 0x32ca2d8c, 0x0c657a79,
        0xf71fc5a9, 0x816fd6e9);
  }

  lemma Rounds12(b: Block)
    requires Scheduled(b, 64)
          && Rounds(IV, b, 12)
                == Eight(0xf71fc5a9, 0x4798a3f4, 0x8c87346b, 0x8e04ecb9, 0x816fd6e9, 0x436b23e8, 0x1cc92596, 0x32ca2d8c)
    ensures Rounds(IV, b, 16)
         == Eight(0xb0fa238e, 0xc0645fde, 0xd932eb16, 0x87912990, 0x07590dcd, 0x0b92f20c, 0x745a48de, 0x1e578218)
  {
    hide Scheduled, Rounds;
    Mix(b, 12, 0xf71fc5a9, 0x4798a3f4, 0x8c87346b, 0x8e04ecb9, 0x816fd6e9, 0x436b23e8, 0x1cc92596, 0x32ca2d8c,
        0x87912990, 0x1e578218);
    Mix(b, 13, 0x87912990, 0xf71fc5a9, 0x4798a3f4, 0x8c87346b, 0x1e578218, 0x816fd6e9, 0x436b23e8, 0x1cc92596,
        0xd932eb16, 0x745a48de);
    Mix(b, 14, 0xd932eb16, 0x87912990, 0xf71fc5a9, 0x4798a3f4, 0x745a48de, 0x1e578218, 0x816fd6e9, 0x436b23e8,
        0xc0645fde, 0x0b92f20c);
    Mix(b, 15, 0xc0645fde, 0xd932eb16, 0x87912990, 0xf71fc5a9, 0x0b92f20c, 0x745a48de, 0x1e578218, 0x816fd6e9,
        0xb0fa238e, 0x07590dcd);
  }

  lemma Rounds16(b: Block)
    requires Scheduled(b, 64)
          && Rounds(IV, b, 16)
                == Eight(0xb0fa238e, 0xc0645fde, 0xd932eb16, 0x87912990, 0x07590dcd, 0x0b92f20c, 0x745a48de, 0x1e578218)
    ensures Rounds(IV, b, 18)
         == Eight(0xc2fbd9d1, 0x21da9a9b, 0xb0fa238e, 0xc0645fde, 0x846ee454, 0x8034229c, 0x07590dcd, 0x0b92f20c)
  {
    hide Scheduled, Rounds;
    Mix(b, 16, 0xb0fa238e, 0xc0645fde, 0xd932eb16, 0x87912990, 0x07590dcd, 0x0b92f20c, 0x745a48de, 0x1e578218,
        0x21da9a9b, 0x8034229c);
    Mix(b, 17, 0x21da9a9b, 0xb0fa238e, 0xc0645fde, 0xd932eb16, 0x8034229c, 0x07590dcd, 0x0b92f20c, 0x745a48de,
        0xc2fbd9d1, 0x846ee454);
  }

  lemma Rounds18(b: Block)
    requires Scheduled(b, 64)
          && Rounds(IV, b, 18)
                == Eight(0xc2fbd9d1, 0x21da9a9b, 0xb0fa238e, 0xc0645fde, 0x846ee454, 0x8034229c, 0x07590dcd, 0x0b92f20c)
    ensures Rounds(IV, b, 20)
         == Eight(0xe1f20c33, 0xfe777bbf, 0xc2fbd9d1, 0x21da9a9b, 0xb0638179, 0xcc899961, 0x846ee454, 0x8034229c)
  {
    hide Scheduled, Rounds;
    Mix(b, 18, 0xc2fbd9d1, 0x21da9a9b, 0xb0fa238e, 0xc0645fde, 0x846ee454, 0x8034229c, 0x07590dcd, 0x0b92f20c,
        0xfe777bbf, 0xcc899961);
    Mix(b, 19, 0xfe777bbf, 0xc2fbd9d1, 0x21da9a9b, 0xb0fa238e, 0xcc899961, 0x846ee454, 0x8034229c, 0x07590dcd,
        0xe1f20c33, 0xb0638179);
  }

  lemma Rounds20(b: Block)
    requires Scheduled(b, 64)
          && Rounds(IV, b, 20)
                == Eight(0xe1f20c33, 0xfe777bbf, 0xc2fbd9d1, 0x21da9a9b, 0xb0638179, 0xcc899961, 0x846ee454, 0x8034229c)
    ensures Rounds(IV, b, 24)
         == Eight(0xc5d53d8d, 0xa7a3623f, 0xc2606d6d, 0x9dc68b63, 0xaa47c347, 0x49f5114a, 0xe1257970, 0x8ada8930)
  {
    hide Scheduled, Rounds;
    Mix(b, 20, 0xe1f20c33, 0xfe777bbf, 0xc2fbd9d1, 0x21da9a9b, 0xb0638179, 0xcc899961, 0x846ee454, 0x8034229c,
        0x9dc68b63, 0x8ada8930);
    Mix(b, 21, 0x9dc68b63, 0xe1f20c33, 0xfe777bbf, 0xc2fbd9d1, 0x8ada8930, 0xb0638179, 0xcc899961, 0x846ee454,
        0xc2606d6d, 0xe1257970);
    Mix(b, 22, 0xc2606d6d, 0x9dc68b63, 0xe1f20c33, 0xfe777bbf, 0xe1257970, 0x8ada8930, 0xb0638179, 0xcc899961,
        0xa7a3623f, 0x49f5114a);
    Mix(b, 23, 0xa7a3623f, 0xc2606d6d, 0x9dc68b63, 0xe1f20c33, 0x49f5114a, 0xe1257970, 0x8ada8930, 0xb0638179,
        0xc5d53d8d, 0xaa47c347);
  }

  lemma Rounds24(b: Block)
    requires Scheduled(b, 64)
          && Rounds(IV, b, 24)
                == Eight(0xc5d53d8d, 0xa7a3623f, 0xc2606d6d, 0x9dc68b63, 0xaa47c347, 0x49f5114a, 0xe1257970, 0x8ada8930)
    ensures Rounds(IV, b, 28)
         == Eight(0x77d37528, 0xb62ec4bc, 0xcde8037d, 0x1c2c2838, 0xedffbff8, 0xc74c6516, 0x14383d8e, 0x2823ef91)
  {
    hide Scheduled, Rounds;
    Mix(b, 24, 0xc5d53d8d, 0xa7a3623f, 0xc2606d6d, 0x9dc68b63, 0xaa47c347, 0x49f5114a, 0xe1257970, 0x8ada8930,
        0x1c2c2838, 0x2823ef91);
    Mix(b, 25, 0x1c2c2838, 0xc5d53d8d, 0xa7a3623f, 0xc2606d6d, 0x2823ef91, 0xaa47c347, 0x49f5114a, 0xe1257970,
        0xcde8037d, 0x14383d8e);
    Mix(b, 26, 0xcde8037d, 0x1c2c2838, 0xc5d53d8d, 0xa7a3623f, 0x14383d8e, 0x2823ef91, 0xaa47c347, 0x49f5114a,
        0xb62ec4bc, 0xc74c6516);
    Mix(b, 27, 0xb62ec4bc, 0xcde8037d, 0x1c2c2838, 0xc5d53d8d, 0xc74c6516, 0x14383d8e, 0x2823ef91, 0xaa47c347,
        0x77d37528, 0xedffbff8);
  }

  lemma Rounds28(b: Block)
    requires Scheduled(b, 64)
          && Rounds(IV, b, 28)
                == Eight(0x77d37528, 0xb62ec4bc, 0xcde8037d, 0x1c2c2838, 0xedffbff8, 0xc74c6516, 0x14383d8e, 0x2823ef91)
    ensures Rounds(IV, b, 32)
         == Eight(0x73b33bf5, 0xea992a22, 0xa0060b30, 0x363482c9, 0xba591112, 0x0109ab3a, 0xade79437, 0x6112a3b7)
  {
    hide Scheduled, Rounds;
    Mix(b, 28, 0x77d37528, 0xb62ec4bc, 0xcde8037d, 0x1c2c2838, 0xedffbff8, 0xc74c6516, 0x14383d8e, 0x2823ef91,
        0x363482c9, 0x6112a3b7);
    Mix(b, 29, 0x363482c9, 0x77d37528, 0xb62ec4bc, 0xcde8037d, 0x6112a3b7, 0xedffbff8, 0xc74c6516, 0x14383d8e,
        0xa0060b30, 0xade79437);
    Mix(b, 30, 0xa0060b30, 0x363482c9, 0x77d37528, 0xb62ec4bc, 0xade79437, 0x6112a3b7, 0xedffbff8, 0xc74c6516,
        0xea992a22, 0x0109ab3a);
    Mix(b, 31, 0xea992a22, 0xa0060b30, 0x363482c9, 0x77d37528, 0x0109ab3a, 0xade79437, 0x6112a3b7, 0xedffbff8,
        0x73b33bf5, 0xba591112);
  }

  lemma Rounds32(b: Block)
    requires Scheduled(b, 64)
          && Rounds(IV, b, 32)
                == Eight(0x73b33bf5, 0xea992a22, 0xa0060b30, 0x363482c9, 0xba591112, 0x0109ab3a, 0xade79437, 0x6112a3b7)
    ensures Rounds(IV, b, 34)
         == Eight(0xfe604df5, 0x98e12507, 0x73b33bf5, 0xea992a22, 0x59249dd3, 0x9cd9f5f6, 0xba591112, 0x0109ab3a)
  {
    hide Scheduled, Rounds;
    Mix(b, 32, 0x73b33bf5, 0xea992a22, 0xa0060b30, 0x363482c9, 0xba591112, 0x0109ab3a, 0xade79437, 0x6112a3b7,
        0x98e12507, 0x9cd9f5f6);
    Mix(b, 33, 0x98e12507, 0x73b33bf5, 0xea992a22, 0xa0060b30, 0x9cd9f5f6, 0xba591112, 0x0109ab3a, 0xade79437,
        0xfe604df5, 0x59249dd3);
  }

  lemma Rounds34(b: Block)
    requires Scheduled(b, 64)
          && Rounds(IV, b, 34)
                == Eight(0xfe604df5, 0x98e12507, 0x73b33bf5, 0xea992a22, 0x59249dd3, 0x9cd9f5f6, 0xba591112, 0x0109ab3a)
    ensures Rounds(IV, b, 36)
         == Eight(0x65a0cfe4, 0xa9a7738c, 0xfe604df5, 0x98e12507, 0xf4b002d6, 0x085f3833, 0x59249dd3, 0x9cd9f5f6)
  {
    hide Scheduled, Rounds;
    Mix(b, 34, 0xfe604df5, 0x98e12507, 0x73b33bf5, 0xea992a22, 0x59249dd3, 0x9cd9f5f6, 0xba591112, 0x0109ab3a,
        0xa9a7738c, 0x085f3833);
    Mix(b, 35, 0xa9a7738c, 0xfe604df5, 0x98e12507, 0x73b33bf5, 0x085f3833, 0x59249dd3, 0x9cd9f5f6, 0xba591112,
        0x65a0cfe4, 0xf4b002d6);
  }

  lemma Rounds36(b: Block)
    requires Scheduled(b, 64)
          && Rounds(IV, b, 36)
                == Eight(0x65a0cfe4, 0xa9a7738c, 0xfe604df5, 0x98e12507, 0xf4b002d6, 0x085f3833, 0x59249dd3, 0x9cd9f5f6)
    ensures Rounds(IV, b, 40)
         == Eight(0x79ea687a, 0x6dc57a8a, 0x34df1604, 0x41a65cb1, 0x1efbc0a0, 0xf0781bc8, 0xa507a53d, 0x0772a26b)
  {
    hide Scheduled, Rounds;
    Mix(b, 36, 0x65a0cfe4, 0xa9a7738c, 0xfe604df5, 0x98e12507, 0xf4b002d6, 0x085f3833, 0x59249dd3, 0x9cd9f5f6,
        0x41a65cb1, 0x0772a26b);
    Mix(b, 37, 0x41a65cb1, 0x65a0cfe4, 0xa9a7738c, 0xfe604df5, 0x0772a26b, 0xf4b002d6, 0x085f3833, 0x59249dd3,
        0x34df1604, 0xa507a53d);
    Mix(b, 38, 0x34df1604, 0x41a65cb1, 0x65a0cfe4, 0xa9a7738c, 0xa507a53d, 0x0772a26b, 0xf4b002d6, 0x085f3833,
        0x6dc57a8a, 0xf0781bc8);
    Mix(b, 39, 0x6dc57a8a, 0x34df1604, 0x41a65cb1, 0x65a0cfe4, 0xf0781bc8, 0xa507a53d, 0x0772a26b, 0xf4b002d6,
        0x79ea687a, 0x1efbc0a0);
  }

  lemma Rounds40(b: Block)
    requires Scheduled(b, 64)
          && Rounds(IV, b, 40)
                == Eight(0x79ea687a, 0x6dc57a8a, 0x34df1604, 0x41a65cb1, 0x1efbc0a0, 0xf0781bc8, 0xa507a53d, 0x0772a26b)
    ensures Rounds(IV, b, 44)
         == Eight(0x9d4baf93, 0x17aa0dfe, 0xdf46652f, 0xd6670766, 0xfda24c2e, 0xdecd4715, 0x838b2711, 0x26352d63)
  {
    hide Scheduled, Rounds;
    Mix(b, 40, 0x79ea687a, 0x6dc57a8a, 0x34df1604, 0x41a65cb1, 0x1efbc0a0, 0xf0781bc8, 0xa507a53d, 0x0772a26b,
        0xd6670766, 0x26352d63);
    Mix(b, 41, 0xd6670766, 0x79ea687a, 0x6dc57a8a, 0x34df1604, 0x26352d63, 0x1efbc0a0, 0xf0781bc8, 0xa507a53d,
        0xdf46652f, 0x838b2711);
    Mix(b, 42, 0xdf46652f, 0xd6670766, 0x79ea687a, 0x6dc57a8a, 0x838b2711, 0x26352d63, 0x1efbc0a0, 0xf0781bc8,
        0x17aa0dfe, 0xdecd4715);
    Mix(b, 43, 0x17aa0dfe, 0xdf46652f, 0xd6670766, 0x79ea687a, 0xdecd4715, 0x838b2711, 0x26352d63, 0x1efbc0a0,
        0x9d4baf93, 0xfda24c2e);
  }

  lemma Rounds44(b: Block)
    requires Scheduled(b, 64)
          && Rounds(IV, b, 44)
                == Eight(0x9d4baf93, 0x17aa0dfe, 0xdf46652f, 0xd6670766, 0xfda24c2e, 0xdecd4715, 0x838b2711, 0x26352d63)
    ensures Rounds(IV, b, 48)
         == Eight(0x4172328d, 0xa14c14b0, 0x72ab4b91, 0x26628815, 0xfecf0bc6, 0xd57b94a9, 0xb7755da1, 0xa80f11f0)
  {
    hide Scheduled, Rounds;
    Mix(b, 44, 0x9d4baf93, 0x17aa0dfe, 0xdf46652f, 0xd6670766, 0xfda24c2e, 0xdecd4715, 0x838b2711, 0x26352d63,
        0x26628815, 0xa80f11f0);
    Mix(b, 45, 0x26628815, 0x9d4baf93, 0x17aa0dfe, 0xdf46652f, 0xa80f11f0, 0xfda24c2e, 0xdecd4715, 0x838b2711,
        0x72ab4b91, 0xb7755da1);
    Mix(b, 46, 0x72ab4b91, 0x26628815, 0x9d4baf93, 0x17aa0dfe, 0xb7755da1, 0xa80f11f0, 0xfda24c2e, 0xdecd4715,
        0xa14c14b0, 0xd57b94a9);
    Mix(b, 47, 0xa14c14b0, 0x72ab4b91, 0x26628815, 0x9d4baf93, 0xd57b94a9, 0xb7755da1, 0xa80f11f0, 0xfda24c2e,
        0x4172328d, 0xfecf0bc6);
  }

  lemma Rounds48(b: Block)
    requires Scheduled(b, 64)
          && Rounds(IV, b, 48)
                == Eight(0x4172328d, 0xa14c14b0, 0x72ab4b91, 0x26628815, 0xfecf0bc6, 0xd57b94a9, 0xb7755da1, 0xa80f11f0)
    ensures Rounds(IV, b, 50)
         == Eight(0xf11bfaa8, 0x05757ceb, 0x4172328d, 0xa14c14b0, 0x6e5c390c, 0xbd714038, 0xfecf0bc6, 0xd57b94a9)
  {
    hide Scheduled, Rounds;
    Mix(b, 48, 0x4172328d, 0xa14c14b0, 0x72ab4b91, 0x26628815, 0xfecf0bc6, 0xd57b94a9, 0xb7755da1, 0xa80f11f0,
        0x05757ceb, 0xbd714038);
    Mix(b, 49, 0x05757ceb, 0x4172328d, 0xa14c14b0, 0x72ab4b91, 0xbd714038, 0xfecf0bc6, 0xd57b94a9, 0xb7755da1,
        0xf11bfaa8, 0x6e5c390c);
  }

  lemma Rounds50(b: Block)
    requires Scheduled(b, 64)
          && Rounds(IV, b, 50)
                == Eight(0xf11bfaa8, 0x05757ceb, 0x4172328d, 0xa14c14b0, 0x6e5c390c, 0xbd714038, 0xfecf0bc6, 0xd57b94a9)
    ensures Rounds(IV, b, 52)
         == Eight(0x886e7a22, 0x7a0508a1, 0xf11bfaa8, 0x05757ceb, 0x49231c1e, 0x52f1ccf7, 0x6e5c390c, 0xbd714038)
  {
    hide Scheduled, Rounds;
    Mix(b, 50, 0xf11bfaa8, 0x05757ceb, 0x4172328d, 0xa14c14b0, 0x6e5c390c, 0xbd714038, 0xfecf0bc6, 0xd57b94a9,
        0x7a0508a1, 0x52f1ccf7);
    Mix(b, 51, 0x7a0508a1, 0xf11bfaa8, 0x05757ceb, 0x4172328d, 0x52f1ccf7, 0x6e5c390c, 0xbd714038, 0xfecf0bc6,
        0x886e7a22, 0x49231c1e);
  }

  lemma Rounds52(b: Block)
    requires Scheduled(b, 64)
          && Rounds(IV, b, 52)
                == Eight(0x886e7a22, 0x7a0508a1, 0xf11bfaa8, 0x05757ceb, 0x49231c1e, 0x52f1ccf7, 0x6e5c390c, 0xbd714038)
    ensures Rounds(IV, b, 56)
         == Eight(0x38cc9913, 0x3ec45cdb, 0xf5702fdb, 0x101fd28f, 0x54cb266b, 0xe50e1b4f, 0x9f4787c3, 0x529e7d00)
  {
    hide Scheduled, Rounds;
    Mix(b, 52, 0x886e7a22, 0x7a0508a1, 0xf11bfaa8, 0x05757ceb, 0x49231c1e, 0x52f1ccf7, 0x6e5c390c, 0xbd714038,
        0x101fd28f, 0x529e7d00);
    Mix(b, 53, 0x101fd28f, 0x886e7a22, 0x7a0508a1, 0xf11bfaa8, 0x529e7d00, 0x49231c1e, 0x52f1ccf7, 0x6e5c390c,
        0xf5702fdb, 0x9f4787c3);
    Mix(b, 54, 0xf5702fdb, 0x101fd28f, 0x886e7a22, 0x7a0508a1, 0x9f4787c3, 0x529e7d00, 0x49231c1e, 0x52f1ccf7,
        0x3ec45cdb, 0xe50e1b4f);
    Mix(b, 55, 0x3ec45cdb, 0xf5702fdb, 0x101fd28f, 0x886e7a22, 0xe50e1b4f, 0x9f4787c3, 0x529e7d00, 0x49231c1e,
        0x38cc9913, 0x54cb266b);
  }

  lemma Rounds56(b: Block)
    requires Scheduled(b, 64)
          && Rounds(IV, b, 56)
                == Eight(0x38cc9913, 0x3ec45cdb, 0xf5702fdb, 0x101fd28f, 0x54cb266b, 0xe50e1b4f, 0x9f4787c3, 0x529e7d00)
    ensures Rounds(IV, b, 60)
         == Eight(0xb6ae8fff, 0xffb70472, 0xc062d46f, 0xfcd1887b, 0xb21bad3d, 0x6d83bfc6, 0x7e44008e, 0x9b5e906c)
  {
    hide Scheduled, Rounds;
    Mix(b, 56, 0x38cc9913, 0x3ec45cdb, 0xf5702fdb, 0x101fd28f, 0x54cb266b, 0xe50e1b4f, 0x9f4787c3, 0x529e7d00,
        0xfcd1887b, 0x9b5e906c);
    Mix(b, 57, 0xfcd1887b, 0x38cc9913, 0x3ec45cdb, 0xf5702fdb, 0x9b5e906c, 0x54cb266b, 0xe50e1b4f, 0x9f4787c3,
        0xc062d46f, 0x7e44008e);
    Mix(b, 58, 0xc062d46f, 0xfcd1887b, 0x38cc9913, 0x3ec45cdb, 0x7e44008e, 0x9b5e906c, 0x54cb266b, 0xe50e1b4f,
        0xffb70472, 0x6d83bfc6);
    Mix(b, 59, 0xffb70472, 0xc062d46f, 0xfcd1887b, 0x38cc9913, 0x6d83bfc6, 0x7e44008e, 0x9b5e906c, 0x54cb266b,
        0xb6ae8fff, 0xb21bad3d);
  }

  lemma Rounds60(b: Block)
    requires Scheduled(b, 64)
          && Rounds(IV, b, 60)
                == Eight(0xb6ae8fff, 0xffb70472, 0xc062d46f, 0xfcd1887b, 0xb21bad3d, 0x6d83bfc6, 0x7e44008e, 0x9b5e906c)
    ensures Rounds(IV, b, 64)
         == Eight(0x506e3058, 0xd39a2165, 0x04d24d6c, 0xb85e2ce9, 0x5ef50f24, 0xfb121210, 0x948d25b6, 0x961f4894)
  {
    hide Scheduled, Rounds;
    Mix(b, 60, 0xb6ae8fff, 0xffb70472, 0xc062d46f, 0xfcd1887b, 0xb21bad3d, 0x6d83bfc6, 0x7e44008e, 0x9b5e906c,
        0xb85e2ce9, 0x961f4894);
    Mix(b, 61, 0xb85e2ce9, 0xb6ae8fff, 0xffb70472, 0xc062d46f, 0x961f4894, 0xb21bad3d, 0x6d83bfc6, 0x7e44008e,
        0x04d24d6c, 0x948d25b6);
    Mix(b, 62, 0x04d24d6c, 0xb85e2ce9, 0xb6ae8fff, 0xffb70472, 0x948d25b6, 0x961f4894, 0xb21bad3d, 0x6d83bfc6,
        0xd39a2165, 0xfb121210);
    Mix(b, 63, 0xd39a2165, 0x04d24d6c, 0xb85e2ce9, 0xb6ae8fff, 0xfb121210, 0x948d25b6, 0x961f4894, 0xb21bad3d,
        0x506e3058, 0x5ef50f24);
  }

  lemma FirstHalf()
    ensures BigEndian(0xba7816bf, 4) == [0xba, 0x78, 0x16, 0xbf]
    ensures BigEndian(0x8f01cfea, 4) == [0x8f, 0x01, 0xcf, 0xea]
    ensures BigEndian(0x414140de, 4) == [0x41, 0x41, 0x40, 0xde]
    ensures BigEndian(0x5dae2223, 4) == [0x5d, 0xae, 0x22, 0x23]
  {
    hide BigEndian;
    FourDigits(0xba7816bf);
    FourDigits(0x8f01cfea);
    FourDigits(0x414140de);
    FourDigits(0x5dae2223);
  }

  lemma LastHalf()
    ensures BigEndian(0xb00361a3, 4) == [0xb0, 0x03, 0x61, 0xa3]
    ensures BigEndian(0x96177a9c, 4) == [0x96, 0x17, 0x7a, 0x9c]
    ensures BigEndian(0xb410ff61, 4) == [0xb4, 0x10, 0xff, 0x61]
    ensures BigEndian(0xf20015ad, 4) == [0xf2, 0x00, 0x15, 0xad]
  {
    hide BigEndian;
    FourDigits(0xb00361a3);
    FourDigits(0x96177a9c);
    FourDigits(0xb410ff61);
    FourDigits(0xf20015ad);
  }

  lemma AllRounds(b: Block)
    requires Scheduled(b, 16)
    ensures Rounds(IV, b, 64)
         == Eight(0x506e3058, 0xd39a2165, 0x04d24d6c, 0xb85e2ce9, 0x5ef50f24, 0xfb121210, 0x948d25b6, 0x961f4894)
  {
    assert Rounds(IV, b, 0) == IV
          == Eight(0x6a09e667, 0xbb67ae85, 0x3c6ef372, 0xa54ff53a, 0x510e527f, 0x9b05688c, 0x1f83d9ab, 0x5be0cd19);
    hide Scheduled, Rounds;
    Extend16(b);
    Extend19(b);
    Extend22(b);
    Extend25(b);
    Extend28(b);
    Extend31(b);
    Extend34(b);
    Extend37(b);
    Extend40(b);
    Extend43(b);
    Extend46(b);
    Extend49(b);
    Extend52(b);
    Extend55(b);
    Extend58(b);
    Extend61(b);
    Rounds0(b);
    Rounds2(b);
    Rounds4(b);
    Rounds8(b);
    Rounds12(b);
    Rounds16(b);
    Rounds18(b);
    Rounds20(b);
    Rounds24(b);
    Rounds28(b);
    Rounds32(b);
    Rounds34(b);
    Rounds36(b);
    Rounds40(b);
    Rounds44(b);
    Rounds48(b);
    Rounds50(b);
    Rounds52(b);
    Rounds56(b);
    Rounds60(b);
  }

  lemma Padding()
    ensures var b := Padded(ABC, BigEndian(24, 8)); |b| == 64 && Scheduled(b, 16)
  {
    var n := BigEndian(24, 8);
    LengthOf24();
    var b := Padded(ABC, n);
    assert b[0] == 0x61 && b[1] == 0x62 && b[2] == 0x63 && b[3] == 0x80;
    assert forall i :: 4 <= i < 56 ==> b[i] == 0;
    assert forall i :: 56 <= i < 64 ==> b[i] == n[i - 56];
    hide Padded, BigEndian;
    forall t: nat | t < 16
      ensures Schedule(b, t) == W(t)
    {
      if 1 <= t < 15 {
        assert WordAt(b, t) == 0;
      }
    }
  }

  lemma LengthOf24()
    ensures BigEndian(24, 8) == [0, 0, 0, 0, 0, 0, 0, 24]
  {
    JoinHalves(0, 24);
    FourDigits(0);
    FourDigits(24);
  }

  lemma Ends()
    ensures AddRegs(IV, Eight(0x506e3058, 0xd39a2165, 0x04d24d6c, 0xb85e2ce9, 0x5ef50f24, 0xfb121210, 0x948d25b6, 0x961f4894))
         == Regs(0xba7816bf, 0x8f01cfea, 0x414140de, 0x5dae2223, 0xb00361a3, 0x96177a9c, 0xb410ff61, 0xf20015ad)
  {}

  lemma LastWords()
    ensures Digest(Regs(0xba7816bf, 0x8f01cfea, 0x414140de, 0x5dae2223, 0xb00361a3, 0x96177a9c, 0xb410ff61, 0xf20015ad))
         == [0xba, 0x78, 0x16, 0xbf, 0x8f, 0x01, 0xcf, 0xea,
             0x41, 0x41, 0x40, 0xde, 0x5d, 0xae, 0x22, 0x23,
             0xb0, 0x03, 0x61, 0xa3, 0x96, 0x17, 0x7a, 0x9c,
             0xb4, 0x10, 0xff, 0x61, 0xf2, 0x00, 0x15, 0xad]
  {
    hide BigEndian;
    LastHalf();
    FirstHalf();
  }

  /** SHA-256 of "abc". */
  lemma Abc()
    ensures Hash(ABC)
         == [0xba, 0x78, 0x16, 0xbf, 0x8f, 0x01, 0xcf, 0xea,
             0x41, 0x41, 0x40, 0xde, 0x5d, 0xae, 0x22, 0x23,
             0xb0, 0x03, 0x61, 0xa3, 0x96, 0x17, 0x7a, 0x9c,
             0xb4, 0x10, 0xff, 0x61, 0xf2, 0x00, 0x15, 0xad]
  {
    hide Padded, Rounds, Digest, BigEndian, Scheduled;
    Padding();
    var b := Padded(ABC, BigEndian(24, 8));
    AllRounds(b);
    Ends();
    LastWords();
    FoldOne(Compress, IV, b);
  }
}

/** One example of section A.5 of RFC 1321: the digest of the letters a to z, computed
    operation by operation on bit vectors. */
module Md5Example {
  import opened Bytes
  import opened BlockHash
  import opened Endian
  import opened Words
  import opened Md5Words
  import opened Rfc1321

  const LETTERS: seq<Byte> := seq(26, i => 0x61 + i)

  /** The sixteen words of its only block. */
  function X(k: nat): Word
    requires k < 16
  {
    [0x64636261, 0x68676665, 0x6c6b6a69, 0x706f6e6d, 0x74737271, 0x78777675, 0x00807a79, 0x00000000,
     0x00000000, 0x00000000, 0x00000000, 0x00000000, 0x00000000, 0x00000000, 0x000000d0, 0x00000000][k]
  }

  ghost predicate HasWords(b: Block)
  {
    forall k: nat :: k < 16 ==> WordAt(b, k) == X(k)
  }

  function Quad(a: bv32, b: bv32, c: bv32, d: bv32): State
  {
    State(Value(a), Value(b), Value(c), Value(d))
  }

  function AuxiliaryBits(round: nat, x: bv32, y: bv32, z: bv32): bv32
  {
    if round == 0 then (x & y) | (!x & z)
    else if round == 1 then (x & z) | (y & !z)
    else if round == 2 then x ^ y ^ z
    else y ^ (x | !z)
  }

  lemma OnBits(round: nat, x: Word, y: Word, z: Word)
    ensures Auxiliary(round, x, y, z) == Value(AuxiliaryBits(round, Bits(x), Bits(y), Bits(z)))
  {
    hide Bits, Value;
  }

  /** One operation: `f` is its word function, `sum` what is rotated, `turned` the result. */
  lemma Operate(block: Block, i: nat, r: nat, k: nat, a: bv32, b: bv32, c: bv32, d: bv32, f: bv32, sum: bv32, turned: bv32, s: nat,
                b': bv32)
    requires i < 64 && HasWords(block) && Steps(IV, block, i) == Quad(a, b, c, d)
    requires i / 16 == r && WordIndex(i) == k && AuxiliaryBits(r, b, c, d) == f && Shift(i) == s && CircularShift(sum, s)
          == turned
    requires (Value(a) + Value(f) + X(k) + T(i)) % MODULUS == Value(sum)
    requires (Value(b) + Value(turned)) % MODULUS == Value(b')
    ensures Steps(IV, block, i + 1) == Quad(d, b', b, c)
  {
    hide Auxiliary, AuxiliaryBits, CircularShift, Bits, Value, T, X, WordIndex, Shift, WordAt;
    OnBits(i / 16, Value(b), Value(c), Value(d));
    SameBits(b);
    SameBits(c);
    SameBits(d);
    SameBits(sum);
    AddFour(Value(a), Value(f), X(k), T(i));
  }

  lemma Steps0(b: Block)
    requires HasWords(b) && Steps(IV, b, 0) == Quad(0x67452301, 0xefcdab89, 0x98badcfe, 0x10325476)
    ensures Steps(IV, b, 2) == Quad(0x98badcfe, 0xaab1aaaa, 0xd6d117a6, 0xefcdab89)
  {
    hide HasWords, Steps;
    Operate(b, 0, 0, 0, 0x67452301, 0xefcdab89, 0x98badcfe, 0x10325476, 0x98badcfe, 0x3bce06d8, 0xe7036c1d, 7,
            0xd6d117a6);
    Operate(b, 1, 0, 1, 0x10325476, 0xd6d117a6, 0xefcdab89, 0x98badcfe, 0xceebcbd8, 0x304d3e09, 0xd3e09304, 12,
            0xaab1aaaa);
  }

  lemma Steps2(b: Block)
    requires HasWords(b) && Steps(IV, b, 2) == Quad(0x98badcfe, 0xaab1aaaa, 0xd6d117a6, 0xefcdab89)
    ensures Steps(IV, b, 4) == Quad(0xd6d117a6, 0x4503b812, 0x227d8cf1, 0xaab1aaaa)
  {
    hide HasWords, Steps;
    Operate(b, 2, 0, 2, 0x98badcfe, 0xaab1aaaa, 0xd6d117a6, 0xefcdab89, 0xc7dd03a3, 0xf123bbe5, 0x77cbe247, 17,
            0x227d8cf1);
    Operate(b, 3, 0, 3, 0xefcdab89, 0x227d8cf1, 0xaab1aaaa, 0xd6d117a6, 0xf6b19ba6, 0x18ac848a, 0x22862b21, 22,
            0x4503b812);
  }

  lemma Steps4(b: Block)
    requires HasWords(b) && Steps(IV, b, 4) == Quad(0xd6d117a6, 0x4503b812, 0x227d8cf1, 0xaab1aaaa)
    ensures Steps(IV, b, 6) == Quad(0x227d8cf1, 0xa811b278, 0xfe15f787, 0x4503b812)
  {
    hide HasWords, Steps;
    Operate(b, 4, 0, 4, 0xd6d117a6, 0x4503b812, 0x227d8cf1, 0xaab1aaaa, 0xaab18ab8, 0xeb72247e, 0xb9123f75, 7,
            0xfe15f787);
    Operate(b, 5, 0, 5, 0xaab1aaaa, 0xfe15f787, 0x4503b812, 0x227d8cf1, 0x4469b872, 0xaf1a9fbb, 0xa9fbbaf1, 12,
            0xa811b278);
  }

  lemma Steps6(b: Block)
    requires HasWords(b) && Steps(IV, b, 6) == Quad(0x227d8cf1, 0xa811b278, 0xfe15f787, 0x4503b812)
    ensures Steps(IV, b, 8) == Quad(0xfe15f787, 0xda9bbb0d, 0xb71122fc, 0xa811b278)
  {
    hide HasWords, Steps;
    Operate(b, 6, 0, 6, 0x227d8cf1, 0xa811b278, 0xfe15f787, 0x4503b812, 0xed13ba02, 0xb842077f, 0x0eff7084, 17,
            0xb71122fc);
    Operate(b, 7, 0, 7, 0x4503b812, 0xb71122fc, 0xa811b278, 0xfe15f787, 0xe815f77b, 0x2a60448e, 0x238a9811, 22,
            0xda9bbb0d);
  }

  lemma Steps8(b: Block)
    requires HasWords(b) && Steps(IV, b, 8) == Quad(0xfe15f787, 0xda9bbb0d, 0xb71122fc, 0xa811b278)
    ensures Steps(IV, b, 10) == Quad(0xb71122fc, 0x2bbe757f, 0xae752899, 0xda9bbb0d)
  {
    hide HasWords, Steps;
    Operate(b, 8, 0, 8, 0xfe15f787, 0xda9bbb0d, 0xb71122fc, 0xa811b278, 0xb211227c, 0x19a7b2db, 0xd3d96d8c, 7,
            0xae752899);
    Operate(b, 9, 0, 9, 0xa811b278, 0xae752899, 0xda9bbb0d, 0xb71122fc, 0x9b112a6d, 0xce67d494, 0x7d494ce6, 12,
            0x2bbe757f);
  }

  lemma Steps10(b: Block)
    requires HasWords(b) && Steps(IV, b, 10) == Quad(0xb71122fc, 0x2bbe757f, 0xae752899, 0xda9bbb0d)
    ensures Steps(IV, b, 12) == Quad(0xae752899, 0x56cfa5cb, 0x7d4bd80b, 0x2bbe757f)
  {
    hide HasWords, Steps;
    Operate(b, 10, 0, 10, 0xb71122fc, 0x2bbe757f, 0xae752899, 0xda9bbb0d, 0xfa35aa19, 0xb14628c6, 0x518d628c, 17,
            0x7d4bd80b);
    Operate(b, 11, 0, 11, 0xda9bbb0d, 0x7d4bd80b, 0x2bbe757f, 0xae752899, 0xab3e709b, 0x0f370366, 0xd983cdc0, 22,
            0x56cfa5cb);
  }

  lemma Steps12(b: Block)
    requires HasWords(b) && Steps(IV, b, 12) == Quad(0xae752899, 0x56cfa5cb, 0x7d4bd80b, 0x2bbe757f)
    ensures Steps(IV, b, 14) == Quad(0x7d4bd80b, 0x85567d90, 0x1754a316, 0x56cfa5cb)
  {
    hide HasWords, Steps;
    Operate(b, 12, 0, 12, 0xae752899, 0x56cfa5cb, 0x7d4bd80b, 0x2bbe757f, 0x7d7bd03f, 0x978109fa, 0xc084fd4b, 7,
            0x1754a316);
    Operate(b, 13, 0, 13, 0x2bbe757f, 0x1754a316, 0x56cfa5cb, 0x7d4bd80b, 0x7e4ff90b, 0xa7a6e01d, 0x6e01da7a, 12,
            0x85567d90);
  }

  lemma Steps14(b: Block)
    requires HasWords(b) && Steps(IV, b, 14) == Quad(0x7d4bd80b, 0x85567d90, 0x1754a316, 0x56cfa5cb)
    ensures Steps(IV, b, 16) == Quad(0x1754a316, 0x608d6b7e, 0x00df74d5, 0x85567d90)
  {
    hide HasWords, Steps;
    Operate(b, 14, 0, 14, 0x7d4bd80b, 0x85567d90, 0x1754a316, 0x56cfa5cb, 0x57dda15b, 0x7ba2bdc4, 0x7b88f745, 17,
            0x00df74d5);
    Operate(b, 15, 0, 15, 0x56cfa5cb, 0x00df74d5, 0x85567d90, 0x1754a316, 0x1756f792, 0xb7daa57e, 0x5fadf6a9, 22,
            0x608d6b7e);
  }

  lemma Steps16(b: Block)
    requires HasWords(b) && Steps(IV, b, 16) == Quad(0x1754a316, 0x608d6b7e, 0x00df74d5, 0x85567d90)
    ensures Steps(IV, b, 18) == Quad(0x00df74d5, 0x5dcee119, 0x2d8071cc, 0x608d6b7e)
  {
    hide HasWords, Steps;
    Operate(b, 16, 1, 1, 0x1754a316, 0x608d6b7e, 0x00df74d5, 0x85567d90, 0x008d6955, 0x76679832, 0xccf3064e, 5,
            0x2d8071cc);
    Operate(b, 17, 1, 6, 0x85567d90, 0x2d8071cc, 0x608d6b7e, 0x00df74d5, 0x60807bee, 0xa6982737, 0x304e6f4d, 9,
            0x5dcee119);
  }

  lemma Steps18(b: Block)
    requires HasWords(b) && Steps(IV, b, 18) == Quad(0x00df74d5, 0x5dcee119, 0x2d8071cc, 0x608d6b7e)
    ensures Steps(IV, b, 20) == Quad(0x2d8071cc, 0x4c2145b3, 0xedfe7e4b, 0x5dcee119)
  {
    hide HasWords, Steps;
    Operate(b, 18, 1, 11, 0x00df74d5, 0x5dcee119, 0x2d8071cc, 0x608d6b7e, 0x4d8c7198, 0x74ca40be, 0x902f9d32, 14,
            0xedfe7e4b);
    Operate(b, 19, 1, 0, 0x608d6b7e, 0xedfe7e4b, 0x5dcee119, 0x2d8071cc, 0x7dcef059, 0x2c7685e2, 0x5e22c768, 20,
            0x4c2145b3);
  }

  lemma Steps20(b: Block)
    requires HasWords(b) && Steps(IV, b, 20) == Quad(0x2d8071cc, 0x4c2145b3, 0xedfe7e4b, 0x5dcee119)
    ensures Steps(IV, b, 22) == Quad(0xedfe7e4b, 0x977efd2a, 0x570c43e0, 0x4c2145b3)
  {
    hide HasWords, Steps;
    Operate(b, 20, 1, 5, 0x2d8071cc, 0x4c2145b3, 0xedfe7e4b, 0x5dcee119, 0xec305f53, 0x685757f1, 0x0aeafe2d, 5,
            0x570c43e0);
    Operate(b, 21, 1, 10, 0x5dcee119, 0x570c43e0, 0x4c2145b3, 0xedfe7e4b, 0x450d43f0, 0xa520395c, 0x4072b94a, 9,
            0x977efd2a);
  }

  lemma Steps22(b: Block)
    requires HasWords(b) && Steps(IV, b, 22) == Quad(0xedfe7e4b, 0x977efd2a, 0x570c43e0, 0x4c2145b3)
    ensures Steps(IV, b, 24) == Quad(0x570c43e0, 0xc9f162d4, 0xc28ab49d, 0x977efd2a)
  {
    hide HasWords, Steps;
    Operate(b, 22, 1, 15, 0xedfe7e4b, 0x977efd2a, 0x570c43e0, 0x4c2145b3, 0x172c4762, 0xddccac2e, 0x2b0bb773, 14,
            0xc28ab49d);
    Operate(b, 23, 1, 4, 0x4c2145b3, 0xc28ab49d, 0x977efd2a, 0x570c43e0, 0xc27abc8a, 0x6ae37076, 0x0766ae37, 20,
            0xc9f162d4);
  }

  lemma Steps24(b: Block)
    requires HasWords(b) && Steps(IV, b, 24) == Quad(0x570c43e0, 0xc9f162d4, 0xc28ab49d, 0x977efd2a)
    ensures Steps(IV, b, 26) == Quad(0xc28ab49d, 0x89980104, 0x25bfae3b, 0xc9f162d4)
  {
    hide HasWords, Steps;
    Operate(b, 24, 1, 9, 0x570c43e0, 0xc9f162d4, 0xc28ab49d, 0x977efd2a, 0xc1f06095, 0x3ade725b, 0x5bce4b67, 5,
            0x25bfae3b);
    Operate(b, 25, 1, 14, 0x977efd2a, 0x25bfae3b, 0xc9f162d4, 0xc28ab49d, 0x09fbe659, 0x64b1ec29, 0x63d852c9, 9,
            0x89980104);
  }

  lemma Steps26(b: Block)
    requires HasWords(b) && Steps(IV, b, 26) == Quad(0xc28ab49d, 0x89980104, 0x25bfae3b, 0xc9f162d4)
    ensures Steps(IV, b, 28) == Quad(0x25bfae3b, 0xe6d3b398, 0xf8c8365f, 0x89980104)
  {
    hide HasWords, Steps;
    Operate(b, 26, 1, 3, 0xc28ab49d, 0x89980104, 0x25bfae3b, 0xc9f162d4, 0xad9e8c2f, 0xd56dbcc0, 0x6f30355b, 14,
            0xf8c8365f);
    Operate(b, 27, 1, 8, 0xc9f162d4, 0xf8c8365f, 0x89980104, 0x25bfae3b, 0xa888271f, 0xb7d39ee0, 0xee0b7d39, 20,
            0xe6d3b398);
  }

  lemma Steps28(b: Block)
    requires HasWords(b) && Steps(IV, b, 28) == Quad(0x25bfae3b, 0xe6d3b398, 0xf8c8365f, 0x89980104)
    ensures Steps(IV, b, 30) == Quad(0xf8c8365f, 0x927b72e2, 0xf54d8710, 0xe6d3b398)
  {
    hide HasWords, Steps;
    Operate(b, 28, 1, 13, 0x25bfae3b, 0xe6d3b398, 0xf8c8365f, 0x89980104, 0xf0d0375b, 0xc073ce9b, 0x0e79d378, 5,
            0xf54d8710);
    Operate(b, 29, 1, 2, 0x89980104, 0xf54d8710, 0xe6d3b398, 0xf8c8365f, 0xf65b8790, 0xe94e96f5, 0x9d2debd2, 9,
            0x927b72e2);
  }

  lemma Steps30(b: Block)
    requires HasWords(b) && Steps(IV, b, 30) == Quad(0xf8c8365f, 0x927b72e2, 0xf54d8710, 0xe6d3b398)
    ensures Steps(IV, b, 32) == Quad(0xf54d8710, 0xaeb35766, 0x2e69afc7, 0x927b72e2)
  {
    hide HasWords, Steps;
    Operate(b, 30, 1, 7, 0xf8c8365f, 0x927b72e2, 0xf54d8710, 0xe6d3b398, 0x935f3680, 0xf3966fb8, 0x9bee3ce5, 14,
            0x2e69afc7);
    Operate(b, 31, 1, 12, 0xe6d3b398, 0x2e69afc7, 0x927b72e2, 0xf54d8710, 0x267bf7e2, 0x9a79f804, 0x8049a79f, 20,
            0xaeb35766);
  }

  lemma Steps32(b: Block)
    requires HasWords(b) && Steps(IV, b, 32) == Quad(0xf54d8710, 0xaeb35766, 0x2e69afc7, 0x927b72e2)
    ensures Steps(IV, b, 34) == Quad(0x2e69afc7, 0x4c8ffa80, 0xb4bf680e, 0xaeb35766)
  {
    hide HasWords, Steps;
    Operate(b, 32, 2, 5, 0xf54d8710, 0xaeb35766, 0x2e69afc7, 0x927b72e2, 0x12a18a43, 0x8060c10a, 0x060c10a8, 4,
            0xb4bf680e);
    Operate(b, 33, 2, 8, 0x927b72e2, 0xb4bf680e, 0xaeb35766, 0x2e69afc7, 0x346590af, 0x4e52fa12, 0x97d09272, 11,
            0x4c8ffa80);
  }

  lemma Steps34(b: Block)
    requires HasWords(b) && Steps(IV, b, 34) == Quad(0x2e69afc7, 0x4c8ffa80, 0xb4bf680e, 0xaeb35766)
    ensures Steps(IV, b, 36) == Quad(0xb4bf680e, 0x06a5e211, 0x2361ed0a, 0x4c8ffa80)
  {
    hide HasWords, Steps;
    Operate(b, 34, 2, 11, 0x2e69afc7, 0x4c8ffa80, 0xb4bf680e, 0xaeb35766, 0x5683c5e8, 0xf28ad6d1, 0xd6d1f28a, 16,
            0x2361ed0a);
    Operate(b, 35, 2, 14, 0xaeb35766, 0x2361ed0a, 0x4c8ffa80, 0xb4bf680e, 0xdb517f84, 0x87ea0fc6, 0xe343f507, 23,
            0x06a5e211);
  }

  lemma Steps36(b: Block)
    requires HasWords(b) && Steps(IV, b, 36) == Quad(0xb4bf680e, 0x06a5e211, 0x2361ed0a, 0x4c8ffa80)
    ensures Steps(IV, b, 38) == Quad(0x2361ed0a, 0xf1e6dc7a, 0xb9c0c733, 0x06a5e211)
  {
    hide HasWords, Steps;
    Operate(b, 36, 2, 1, 0xb4bf680e, 0x06a5e211, 0x2361ed0a, 0x4c8ffa80, 0x694bf59b, 0x2b31ae52, 0xb31ae522, 4,
            0xb9c0c733);
    Operate(b, 37, 2, 4, 0x4c8ffa80, 0xb9c0c733, 0x06a5e211, 0x2361ed0a, 0x9c04c828, 0xa8e704c2, 0x38261547, 11,
            0xf1e6dc7a);
  }

  lemma Steps38(b: Block)
    requires HasWords(b) && Steps(IV, b, 38) == Quad(0x2361ed0a, 0xf1e6dc7a, 0xb9c0c733, 0x06a5e211)
    ensures Steps(IV, b, 40) == Quad(0xb9c0c733, 0x8d41bf99, 0x23a9451b, 0xf1e6dc7a)
  {
    hide HasWords, Steps;
    Operate(b, 38, 2, 7, 0x2361ed0a, 0xf1e6dc7a, 0xb9c0c733, 0x06a5e211, 0x4e83f958, 0x68a131c2, 0x31c268a1, 16,
            0x23a9451b);
    Operate(b, 39, 2, 10, 0x06a5e211, 0x23a9451b, 0xf1e6dc7a, 0xb9c0c733, 0x6b8f5e52, 0x30f4fcd3, 0x69987a7e, 23,
            0x8d41bf99);
  }

  lemma Steps40(b: Block)
    requires HasWords(b) && Steps(IV, b, 40) == Quad(0xb9c0c733, 0x8d41bf99, 0x23a9451b, 0xf1e6dc7a)
    ensures Steps(IV, b, 42) == Quad(0x23a9451b, 0x02c0b11c, 0xa3e88ead, 0x8d41bf99)
  {
    hide HasWords, Steps;
    Operate(b, 40, 2, 13, 0xb9c0c733, 0x8d41bf99, 0x23a9451b, 0xf1e6dc7a, 0x5f0e26f8, 0x416a6cf1, 0x16a6cf14, 4,
            0xa3e88ead);
    Operate(b, 41, 2, 0, 0xf1e6dc7a, 0xa3e88ead, 0x8d41bf99, 0x23a9451b, 0x0d00742f, 0x4debdb04, 0x5ed8226f, 11,
            0x02c0b11c);
  }

  lemma Steps42(b: Block)
    requires HasWords(b) && Steps(IV, b, 42) == Quad(0x23a9451b, 0x02c0b11c, 0xa3e88ead, 0x8d41bf99)
    ensures Steps(IV, b, 44) == Quad(0xa3e88ead, 0x90a35af5, 0x66f6468d, 0x02c0b11c)
  {
    hide HasWords, Steps;
    Operate(b, 42, 2, 3, 0x23a9451b, 0x02c0b11c, 0xa3e88ead, 0x8d41bf99, 0x2c698028, 0x95716435, 0x64359571, 16,
            0x66f6468d);
    Operate(b, 43, 2, 6, 0x8d41bf99, 0x66f6468d, 0x02c0b11c, 0xa3e88ead, 0xc7de793c, 0x5a28d053, 0x29ad1468, 23,
            0x90a35af5);
  }

  lemma Steps44(b: Block)
    requires HasWords(b) && Steps(IV, b, 44) == Quad(0xa3e88ead, 0x90a35af5, 0x66f6468d, 0x02c0b11c)
    ensures Steps(IV, b, 46) == Quad(0x66f6468d, 0xa04b4904, 0xb5d41f9c, 0x90a35af5)
  {
    hide HasWords, Steps;
    Operate(b, 44, 2, 9, 0xa3e88ead, 0x90a35af5, 0x66f6468d, 0x02c0b11c, 0xf495ad64, 0x72530c4a, 0x2530c4a7, 4,
            0xb5d41f9c);
    Operate(b, 45, 2, 12, 0x02c0b11c, 0xb5d41f9c, 0x90a35af5, 0x66f6468d, 0x438103e4, 0x2d1d4ee5, 0xea772968, 11,
            0xa04b4904);
  }

  lemma Steps46(b: Block)
    requires HasWords(b) && Steps(IV, b, 46) == Quad(0x66f6468d, 0xa04b4904, 0xb5d41f9c, 0x90a35af5)
    ensures Steps(IV, b, 48) == Quad(0xb5d41f9c, 0x71d10367, 0x703d54d8, 0xa04b4904)
  {
    hide HasWords, Steps;
    Operate(b, 46, 2, 15, 0x66f6468d, 0xa04b4904, 0xb5d41f9c, 0x90a35af5, 0x853c0c6d, 0x0bd4cff2, 0xcff20bd4, 16,
            0x703d54d8);
    Operate(b, 47, 2, 2, 0x90a35af5, 0x703d54d8, 0xa04b4904, 0xb5d41f9c, 0x65a20240, 0x275d1e03, 0x0193ae8f, 23,
            0x71d10367);
  }

  lemma Steps48(b: Block)
    requires HasWords(b) && Steps(IV, b, 48) == Quad(0xb5d41f9c, 0x71d10367, 0x703d54d8, 0xa04b4904)
    ensures Steps(IV, b, 50) == Quad(0x703d54d8, 0x65456b34, 0xfc32dd6e, 0x71d10367)
  {
    hide HasWords, Steps;
    Operate(b, 48, 3, 0, 0xb5d41f9c, 0x71d10367, 0x703d54d8, 0xa04b4904, 0x0fc8e327, 0x1e298768, 0x8a61da07, 6,
            0xfc32dd6e);
    Operate(b, 49, 3, 7, 0xa04b4904, 0xfc32dd6e, 0x71d10367, 0x703d54d8, 0x8e23fc08, 0x719a44a3, 0x69128dc6, 10,
            0x65456b34);
  }

  lemma Steps50(b: Block)
    requires HasWords(b) && Steps(IV, b, 50) == Quad(0x703d54d8, 0x65456b34, 0xfc32dd6e, 0x71d10367)
    ensures Steps(IV, b, 52) == Quad(0xfc32dd6e, 0x33edb197, 0xb35602cb, 0x65456b34)
  {
    hide HasWords, Steps;
    Operate(b, 50, 3, 14, 0x703d54d8, 0x65456b34, 0xfc32dd6e, 0x71d10367, 0x135d22d2, 0x2f2e9c21, 0x4e109797, 15,
            0xb35602cb);
    Operate(b, 51, 3, 5, 0x71d10367, 0xb35602cb, 0x65456b34, 0xfc32dd6e, 0xd69a49ef, 0xbd766404, 0x8097aecc, 21,
            0x33edb197);
  }

  lemma Steps52(b: Block)
    requires HasWords(b) && Steps(IV, b, 52) == Quad(0xfc32dd6e, 0x33edb197, 0xb35602cb, 0x65456b34)
    ensures Steps(IV, b, 54) == Quad(0xb35602cb, 0xd9bb987c, 0xc1e942f1, 0x33edb197)
  {
    hide HasWords, Steps;
    Operate(b, 52, 3, 12, 0xfc32dd6e, 0x33edb197, 0xb35602cb, 0x65456b34, 0x08a9b714, 0x6a37ee45, 0x8dfb915a, 6,
            0xc1e942f1);
    Operate(b, 53, 3, 3, 0x65456b34, 0xc1e942f1, 0x33edb197, 0xb35602cb, 0xfe044e62, 0x62c5f495, 0x17d2558b, 10,
            0xd9bb987c);
  }

  lemma Steps54(b: Block)
    requires HasWords(b) && Steps(IV, b, 54) == Quad(0xb35602cb, 0xd9bb987c, 0xc1e942f1, 0x33edb197)
    ensures Steps(IV, b, 56) == Quad(0xc1e942f1, 0x83877d1b, 0x23a68048, 0xd9bb987c)
  {
    hide HasWords, Steps;
    Operate(b, 54, 3, 10, 0xb35602cb, 0xd9bb987c, 0xc1e942f1, 0x33edb197, 0x1c529c8d, 0xcf9893d5, 0x49eae7cc, 15,
            0x23a68048);
    Operate(b, 55, 3, 1, 0x33edb197, 0x23a68048, 0xd9bb987c, 0xc1e942f1, 0xe60d2532, 0x07e69aff, 0x5fe0fcd3, 21,
            0x83877d1b);
  }

  lemma Steps56(b: Block)
    requires HasWords(b) && Steps(IV, b, 56) == Quad(0xc1e942f1, 0x83877d1b, 0x23a68048, 0xd9bb987c)
    ensures Steps(IV, b, 58) == Quad(0x23a68048, 0x847fc2e7, 0x0077c208, 0x83877d1b)
  {
    hide HasWords, Steps;
    Operate(b, 56, 3, 8, 0xc1e942f1, 0x83877d1b, 0x23a68048, 0xd9bb987c, 0x8461ffd3, 0xb5f3c113, 0x7cf044ed, 6,
            0x0077c208);
    Operate(b, 57, 3, 15, 0xd9bb987c, 0x0077c208, 0x83877d1b, 0x23a68048, 0x5ff882a4, 0x37e10200, 0x840800df, 10,
            0x847fc2e7);
  }

  lemma Steps58(b: Block)
    requires HasWords(b) && Steps(IV, b, 58) == Quad(0x23a68048, 0x847fc2e7, 0x0077c208, 0x83877d1b)
    ensures Steps(IV, b, 60) == Quad(0x0077c208, 0x5e6bc930, 0xa3e2247f, 0x847fc2e7)
  {
    hide HasWords, Steps;
    Operate(b, 58, 3, 6, 0x23a68048, 0x847fc2e7, 0x0077c208, 0x83877d1b, 0xfc0800ef, 0xc3303ec4, 0x1f626198, 15,
            0xa3e2247f);
    Operate(b, 59, 3, 13, 0x83877d1b, 0xa3e2247f, 0x847fc2e7, 0x0077c208, 0x7b95ff18, 0x4d258dd4, 0xba89a4b1, 21,
            0x5e6bc930);
  }

  lemma Steps60(b: Block)
    requires HasWords(b) && Steps(IV, b, 60) == Quad(0x0077c208, 0x5e6bc930, 0xa3e2247f, 0x847fc2e7)
    ensures Steps(IV, b, 62) == Quad(0xa3e2247f, 0x2baf1354, 0x708ed9c2, 0x5e6bc930)
  {
    hide HasWords, Steps;
    Operate(b, 60, 3, 4, 0x0077c208, 0x5e6bc930, 0xa3e2247f, 0x847fc2e7, 0xdc09d947, 0x48488c42, 0x12231092, 6,
            0x708ed9c2);
    Operate(b, 61, 3, 11, 0x847fc2e7, 0x708ed9c2, 0x5e6bc930, 0xa3e2247f, 0x22f412f2, 0x64aec80e, 0xbb203992, 10,
            0x2baf1354);
  }

  lemma Steps62(b: Block)
    requires HasWords(b) && Steps(IV, b, 62) == Quad(0xa3e2247f, 0x2baf1354, 0x708ed9c2, 0x5e6bc930)
    ensures Steps(IV, b, 64) == Quad(0x708ed9c2, 0x1116e6d8, 0xd38f1e7f, 0x2baf1354)
  {
    hide HasWords, Steps;
    Operate(b, 62, 3, 2, 0xa3e2247f, 0x2baf1354, 0x708ed9c2, 0x5e6bc930, 0xdb31ee1d, 0x16574fc0, 0xa7e00b2b, 15,
            0xd38f1e7f);
    Operate(b, 63, 3, 9, 0x5e6bc930, 0xd38f1e7f, 0x2baf1354, 0x708ed9c2, 0xf4502d2b, 0x3e42c9ec, 0x3d87c859, 21,
            0x1116e6d8);
  }

  lemma AllSteps(b: Block)
    requires HasWords(b)
    ensures Steps(IV, b, 64) == Quad(0x708ed9c2, 0x1116e6d8, 0xd38f1e7f, 0x2baf1354)
  {
    assert Steps(IV, b, 0) == IV == Quad(0x67452301, 0xefcdab89, 0x98badcfe, 0x10325476);
    hide HasWords, Steps;
    Steps0(b);
    Steps2(b);
    Steps4(b);
    Steps6(b);
    Steps8(b);
    Steps10(b);
    Steps12(b);
    Steps14(b);
    Steps16(b);
    Steps18(b);
    Steps20(b);
    Steps22(b);
    Steps24(b);
    Steps26(b);
    Steps28(b);
    Steps30(b);
    Steps32(b);
    Steps34(b);
    Steps36(b);
    Steps38(b);
    Steps40(b);
    Steps42(b);
    Steps44(b);
    Steps46(b);
    Steps48(b);
    Steps50(b);
    Steps52(b);
    Steps54(b);
    Steps56(b);
    Steps58(b);
    Steps60(b);
    Steps62(b);
  }

  lemma Padding()
    ensures var b := Padded(LETTERS, LittleEndian(208, 8)); |b| == 64 && HasWords(b)
  {
    hide Padded, LittleEndian, LETTERS;
    PaddedBytes();
    LengthOf208();
    var b := Padded(LETTERS, LittleEndian(208, 8));
    forall k: nat | k < 16
      ensures WordAt(b, k) == X(k)
    {
      if k < 6 {
        assert WordAt(b, k) == 0x64636261 + 0x4040404 * k;
      }
    }
  }

  lemma PaddedBytes()
    ensures var n := LittleEndian(208, 8);
            var b := Padded(LETTERS, n);
            && |b| == 64 && b[26] == 0x80
            && (forall i :: 0 <= i < 26 ==> b[i] == 0x61 + i)
            && (forall i :: 27 <= i < 56 ==> b[i] == 0)
            && (forall i :: 56 <= i < 64 ==> b[i] == n[i - 56])
  {
    hide LittleEndian;
  }

  lemma LengthOf208()
    ensures LittleEndian(208, 8) == [208, 0, 0, 0, 0, 0, 0, 0]
  {}

  lemma Ends()
    ensures AddRegs(IV, Quad(0x708ed9c2, 0x1116e6d8, 0xd38f1e7f, 0x2baf1354))
          == State(0xd7d3fcc3, 0x00e49261, 0x6c49fb7d, 0x3be167ca)
  {}

  lemma LastWords()
    ensures Digest(State(0xd7d3fcc3, 0x00e49261, 0x6c49fb7d, 0x3be167ca))
         == [0xc3, 0xfc, 0xd3, 0xd7, 0x61, 0x92, 0xe4, 0x00,
             0x7d, 0xfb, 0x49, 0x6c, 0xca, 0x67, 0xe1, 0x3b]
  {}

  /** MD5 of the letters a to z. */
  lemma Letters()
    ensures Hash(LETTERS)
         == [0xc3, 0xfc, 0xd3, 0xd7, 0x61, 0x92, 0xe4, 0x00,
             0x7d, 0xfb, 0x49, 0x6c, 0xca, 0x67, 0xe1, 0x3b]
  {
    hide Padded, Steps, Digest, LittleEndian;
    Padding();
    var b := Padded(LETTERS, LittleEndian(208, 8));
    AllSteps(b);
    Ends();
    LastWords();
    FoldOne(Compress, IV, b);
  }
}
