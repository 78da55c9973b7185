/** The digest of "abc", step by step, against the value that is published for it. */
module Sha256Vector {
  import opened Sha256Spec
  import opened Sha256

  function Abc(): seq<Octet> {
    [97, 98, 99]
  }

  /** The message padded to one block. */
  function AbcBlock(): Block {
    Abc() + [0x80] + ZeroOctets(52) + [0, 0, 0, 0, 0, 0, 0, 24]
  }

  // ----- the message schedule -----

  lemma AbcBytes(i: nat)
    requires i < 64
    ensures AbcBlock()[i] == if i < 3 then Abc()[i] else if i == 3 then 0x80 else if i == 63 then 24 else 0
  {
    hide Abc;
  }

  /** Word t of the schedule. */
  ghost predicate WordIs(t: nat, w: Word) {
    t < 64 && forall b: Block | b == AbcBlock() :: Schedule(b, t) == w
  }

  lemma FirstWord(t: nat)
    requires t < 16
    ensures WordIs(t, if t == 0 then 0x61626380 else if t == 15 then 24 else 0)
  {
    hide AbcBlock, Schedule;
    ScheduleStart(AbcBlock(), t);
    AbcBytes(4 * t);
    AbcBytes(4 * t + 1);
    AbcBytes(4 * t + 2);
    AbcBytes(4 * t + 3);
  }

  lemma FirstWords()
    ensures WordIs(0, 0x61626380) && WordIs(15, 24) && forall t: nat | 0 < t < 15 :: WordIs(t, 0)
  {
    hide WordIs;
    FirstWord(0);
    FirstWord(15);
    forall t: nat | 0 < t < 15
      ensures WordIs(t, 0)
    {
      FirstWord(t);
    }
  }

  lemma NextWord(t: nat, a: Word, b: Word, c: Word, d: Word, w: Word)
    requires 16 <= t < 64 && WordIs(t - 16, a) && WordIs(t - 15, b) && WordIs(t - 7, c) && WordIs(t - 2, d)
    requires Sum(a, SmallSigma0(b), c, SmallSigma1(d)) == w
    ensures WordIs(t, w)
  {
    hide AbcBlock, SmallSigma0, SmallSigma1, Plus;
    forall block: Block | block == AbcBlock()
      ensures Schedule(block, t) == w
    {
      ScheduleStep(block, t);
    }
  }

  lemma Words16()
    ensures WordIs(16, 0x61626380)
    ensures WordIs(17, 0x000f0000)
    ensures WordIs(18, 0x7da86405)
    ensures WordIs(19, 0x600003c6)
    ensures WordIs(20, 0x3e9d7b78)
    ensures WordIs(21, 0x0183fc00)
    ensures WordIs(22, 0x12dcbfdb)
    ensures WordIs(23, 0xe2e2c38e)
  {
    hide WordIs;
    FirstWords();
    NextWord(16, 0x61626380, 0x00000000, 0x00000000, 0x00000000, 0x61626380);
    NextWord(17, 0x00000000, 0x00000000, 0x00000000, 0x00000018, 0x000f0000);
    NextWord(18, 0x00000000, 0x00000000, 0x00000000, 0x61626380, 0x7da86405);
    NextWord(19, 0x00000000, 0x00000000, 0x00000000, 0x000f0000, 0x600003c6);
    NextWord(20, 0x00000000, 0x00000000, 0x00000000, 0x7da86405, 0x3e9d7b78);
    NextWord(21, 0x00000000, 0x00000000, 0x00000000, 0x600003c6, 0x0183fc00);
    NextWord(22, 0x00000000, 0x00000000, 0x00000018, 0x3e9d7b78, 0x12dcbfdb);
    NextWord(23, 0x00000000, 0x00000000, 0x61626380, 0x0183fc00, 0xe2e2c38e);
  }

  lemma Words24()
    ensures WordIs(24, 0xc8215c1a)
    ensures WordIs(25, 0xb73679a2)
    ensures WordIs(26, 0xe5bc3909)
    ensures WordIs(27, 0x32663c5b)
    ensures WordIs(28, 0x9d209d67)
    ensures WordIs(29, 0xec8726cb)
    ensures WordIs(30, 0x702138a4)
    ensures WordIs(31, 0xd3b7973b)
  {
    hide WordIs;
    FirstWords();
    Words16();
    NextWord(24, 0x00000000, 0x00000000, 0x000f0000, 0x12dcbfdb, 0xc8215c1a);
    NextWord(25, 0x00000000, 0x00000000, 0x7da86405, 0xe2e2c38e, 0xb73679a2);
    NextWord(26, 0x00000000, 0x00000000, 0x600003c6, 0xc8215c1a, 0xe5bc3909);
    NextWord(27, 0x00000000, 0x00000000, 0x3e9d7b78, 0xb73679a2, 0x32663c5b);
    NextWord(28, 0x00000000, 0x00000000, 0x0183fc00, 0xe5bc3909, 0x9d209d67);
    NextWord(29, 0x00000000, 0x00000000, 0x12dcbfdb, 0x32663c5b, 0xec8726cb);
    NextWord(30, 0x00000000, 0x00000018, 0xe2e2c38e, 0x9d209d67, 0x702138a4);
    NextWord(31, 0x00000018, 0x61626380, 0xc8215c1a, 0xec8726cb, 0xd3b7973b);
  }

  lemma Words32()
    ensures WordIs(32, 0x93f5997f)
    ensures WordIs(33, 0x3b68ba73)
    ensures WordIs(34, 0xaff4ffc1)
    ensures WordIs(35, 0xf10a5c62)
    ensures WordIs(36, 0x0a8b3996)
    ensures WordIs(37, 0x72af830a)
    ensures WordIs(38, 0x9409e33e)
    ensures WordIs(39, 0x24641522)
  {
    hide WordIs;
    Words16();
    Words24();
    NextWord(32, 0x61626380, 0x000f0000, 0xb73679a2, 0x702138a4, 0x93f5997f);
    NextWord(33, 0x000f0000, 0x7da86405, 0xe5bc3909, 0xd3b7973b, 0x3b68ba73);
    NextWord(34, 0x7da86405, 0x600003c6, 0x32663c5b, 0x93f5997f, 0xaff4ffc1);
    NextWord(35, 0x600003c6, 0x3e9d7b78, 0x9d209d67, 0x3b68ba73, 0xf10a5c62);
    NextWord(36, 0x3e9d7b78, 0x0183fc00, 0xec8726cb, 0xaff4ffc1, 0x0a8b3996);
    NextWord(37, 0x0183fc00, 0x12dcbfdb, 0x702138a4, 0xf10a5c62, 0x72af830a);
    NextWord(38, 0x12dcbfdb, 0xe2e2c38e, 0xd3b7973b, 0x0a8b3996, 0x9409e33e);
    NextWord(39, 0xe2e2c38e, 0xc8215c1a, 0x93f5997f, 0x72af830a, 0x24641522);
  }

  lemma Words40()
    ensures WordIs(40, 0x9f47bf94)
    ensures WordIs(41, 0xf0a64f5a)
    ensures WordIs(42, 0x3e246a79)
    ensures WordIs(43, 0x27333ba3)
    ensures WordIs(44, 0x0c4763f2)
    ensures WordIs(45, 0x840abf27)
    ensures WordIs(46, 0x7a290d5d)
    ensures WordIs(47, 0x065c43da)
  {
    hide WordIs;
    Words24();
    Words32();
    NextWord(40, 0xc8215c1a, 0xb73679a2, 0x3b68ba73, 0x9409e33e, 0x9f47bf94);
    NextWord(41, 0xb73679a2, 0xe5bc3909, 0xaff4ffc1, 0x24641522, 0xf0a64f5a);
    NextWord(42, 0xe5bc3909, 0x32663c5b, 0xf10a5c62, 0x9f47bf94, 0x3e246a79);
    NextWord(43, 0x32663c5b, 0x9d209d67, 0x0a8b3996, 0xf0a64f5a, 0x27333ba3);
    NextWord(44, 0x9d209d67, 0xec8726cb, 0x72af830a, 0x3e246a79, 0x0c4763f2);
    NextWord(45, 0xec8726cb, 0x702138a4, 0x9409e33e, 0x27333ba3, 0x840abf27);
    NextWord(46, 0x702138a4, 0xd3b7973b, 0x24641522, 0x0c4763f2, 0x7a290d5d);
    NextWord(47, 0xd3b7973b, 0x93f5997f, 0x9f47bf94, 0x840abf27, 0x065c43da);
  }

  lemma Words48()
    ensures WordIs(48, 0xfb3e89cb)
    ensures WordIs(49, 0xcc7617db)
    ensures WordIs(50, 0xb9e66c34)
    ensures WordIs(51, 0xa9993667)
    ensures WordIs(52, 0x84badedd)
    ensures WordIs(53, 0xc21462bc)
    ensures WordIs(54, 0x1487472c)
    ensures WordIs(55, 0xb20f7a99)
  {
    hide WordIs;
    Words32();
    Words40();
    NextWord(48, 0x93f5997f, 0x3b68ba73, 0xf0a64f5a, 0x7a290d5d, 0xfb3e89cb);
    NextWord(49, 0x3b68ba73, 0xaff4ffc1, 0x3e246a79, 0x065c43da, 0xcc7617db);
    NextWord(50, 0xaff4ffc1, 0xf10a5c62, 0x27333ba3, 0xfb3e89cb, 0xb9e66c34);
    NextWord(51, 0xf10a5c62, 0x0a8b3996, 0x0c4763f2, 0xcc7617db, 0xa9993667);
    NextWord(52, 0x0a8b3996, 0x72af830a, 0x840abf27, 0xb9e66c34, 0x84badedd);
    NextWord(53, 0x72af830a, 0x9409e33e, 0x7a290d5d, 0xa9993667, 0xc21462bc);
    NextWord(54, 0x9409e33e, 0x24641522, 0x065c43da, 0x84badedd, 0x1487472c);
    NextWord(55, 0x24641522, 0x9f47bf94, 0xfb3e89cb, 0xc21462bc, 0xb20f7a99);
  }

  lemma Words56()
    ensures WordIs(56, 0xef57b9cd)
    ensures WordIs(57, 0xebe6b238)
    ensures WordIs(58, 0x9fe3095e)
    ensures WordIs(59, 0x78bc8d4b)
    ensures WordIs(60, 0xa43fcf15)
    ensures WordIs(61, 0x668b2ff8)
    ensures WordIs(62, 0xeeaba2cc)
    ensures WordIs(63, 0x12b1edeb)
  {
    hide WordIs;
    Words40();
    Words48();
    NextWord(56, 0x9f47bf94, 0xf0a64f5a, 0xcc7617db, 0x1487472c, 0xef57b9cd);
    NextWord(57, 0xf0a64f5a, 0x3e246a79, 0xb9e66c34, 0xb20f7a99, 0xebe6b238);
    NextWord(58, 0x3e246a79, 0x27333ba3, 0xa9993667, 0xef57b9cd, 0x9fe3095e);
    NextWord(59, 0x27333ba3, 0x0c4763f2, 0x84badedd, 0xebe6b238, 0x78bc8d4b);
    NextWord(60, 0x0c4763f2, 0x840abf27, 0xc21462bc, 0x9fe3095e, 0xa43fcf15);
    NextWord(61, 0x840abf27, 0x7a290d5d, 0x1487472c, 0x78bc8d4b, 0x668b2ff8);
    NextWord(62, 0x7a290d5d, 0x065c43da, 0xb20f7a99, 0xa43fcf15, 0xeeaba2cc);
    NextWord(63, 0x065c43da, 0xfb3e89cb, 0xef57b9cd, 0x668b2ff8, 0x12b1edeb);
  }

  // ----- the rounds -----

  /** The working variables after t rounds. */
  ghost predicate HashIs(t: nat, v: Hash) {
    t <= 64 && forall b: Block | b == AbcBlock() :: Rounds(InitialHash(), b, t) == v
  }

  lemma NextHash(t: nat, v: Hash, w: Word, r: Hash)
    requires t < 64 && HashIs(t, v) && WordIs(t, w) && Round(v, K(t), w) == r
    ensures HashIs(t + 1, r)
  {
    hide AbcBlock, InitialHash, Schedule, Round, K;
    RoundsStep(InitialHash(), AbcBlock(), t);
  }

  lemma After4()
    ensures HashIs(4, [0xd550f666, 0xc8c347a7, 0x5a6ad9ad, 0x5d6aebcd, 0x24e00850, 0xf92939eb, 0x78ce7989, 0xfa2a4622])
  {
    hide WordIs, HashIs;
    FirstHash();
    FirstWords();
    NextHash(0, [0x6a09e667, 0xbb67ae85, 0x3c6ef372, 0xa54ff53a, 0x510e527f, 0x9b05688c, 0x1f83d9ab, 0x5be0cd19], 0x61626380,
             [0x5d6aebcd, 0x6a09e667, 0xbb67ae85, 0x3c6ef372, 0xfa2a4622, 0x510e527f, 0x9b05688c, 0x1f83d9ab]);
    NextHash(1, [0x5d6aebcd, 0x6a09e667, 0xbb67ae85, 0x3c6ef372, 0xfa2a4622, 0x510e527f, 0x9b05688c, 0x1f83d9ab], 0x00000000,
             [0x5a6ad9ad, 0x5d6aebcd, 0x6a09e667, 0xbb67ae85, 0x78ce7989, 0xfa2a4622, 0x510e527f, 0x9b05688c]);
    NextHash(2, [0x5a6ad9ad, 0x5d6aebcd, 0x6a09e667, 0xbb67ae85, 0x78ce7989, 0xfa2a4622, 0x510e527f, 0x9b05688c], 0x00000000,
             [0xc8c347a7, 0x5a6ad9ad, 0x5d6aebcd, 0x6a09e667, 0xf92939eb, 0x78ce7989, 0xfa2a4622, 0x510e527f]);
    NextHash(3, [0xc8c347a7, 0x5a6ad9ad, 0x5d6aebcd, 0x6a09e667, 0xf92939eb, 0x78ce7989, 0xfa2a4622, 0x510e527f], 0x00000000,
             [0xd550f666, 0xc8c347a7, 0x5a6ad9ad, 0x5d6aebcd, 0x24e00850, 0xf92939eb, 0x78ce7989, 0xfa2a4622]);
  }

  lemma After8()
    ensures HashIs(8, [0x85a07b5f, 0xe5030380, 0x2b4209f5, 0x04409a6a, 0x0c657a79, 0x9b27a401, 0x714260ad, 0x43ada245])
  {
    hide WordIs, HashIs;
    After4();
    FirstWords();
    NextHash(4, [0xd550f666, 0xc8c347a7, 0x5a6ad9ad, 0x5d6aebcd, 0x24e00850, 0xf92939eb, 0x78ce7989, 0xfa2a4622], 0x00000000,
             [0x04409a6a, 0xd550f666, 0xc8c347a7, 0x5a6ad9ad, 0x43ada245, 0x24e00850, 0xf92939eb, 0x78ce7989]);
    NextHash(5, [0x04409a6a, 0xd550f666, 0xc8c347a7, 0x5a6ad9ad, 0x43ada245, 0x24e00850, 0xf92939eb, 0x78ce7989], 0x00000000,
             [0x2b4209f5, 0x04409a6a, 0xd550f666, 0xc8c347a7, 0x714260ad, 0x43ada245, 0x24e00850, 0xf92939eb]);
    NextHash(6, [0x2b4209f5, 0x04409a6a, 0xd550f666, 0xc8c347a7, 0x714260ad, 0x43ada245, 0x24e00850, 0xf92939eb], 0x00000000,
             [0xe5030380, 0x2b4209f5, 0x04409a6a, 0xd550f666, 0x9b27a401, 0x714260ad, 0x43ada245, 0x24e00850]);
    NextHash(7, [0xe5030380, 0x2b4209f5, 0x04409a6a, 0xd550f666, 0x9b27a401, 0x714260ad, 0x43ada245, 0x24e00850], 0x00000000,
             [0x85a07b5f, 0xe5030380, 0x2b4209f5, 0x04409a6a, 0x0c657a79, 0x9b27a401, 0x714260ad, 0x43ada245]);
  }

  lemma After12()
    ensures HashIs(12, [0xf71fc5a9, 0x4798a3f4, 0x8c87346b, 0x8e04ecb9, 0x816fd6e9, 0x436b23e8, 0x1cc92596, 0x32ca2d8c])
  {
    hide WordIs, HashIs;
    After8();
    FirstWords();
    NextHash(8, [0x85a07b5f, 0xe5030380, 0x2b4209f5, 0x04409a6a, 0x0c657a79, 0x9b27a401, 0x714260ad, 0x43ada245], 0x00000000,
             [0x8e04ecb9, 0x85a07b5f, 0xe5030380, 0x2b4209f5, 0x32ca2d8c, 0x0c657a79, 0x9b27a401, 0x714260ad]);
    NextHash(9, [0x8e04ecb9, 0x85a07b5f, 0xe5030380, 0x2b4209f5, 0x32ca2d8c, 0x0c657a79, 0x9b27a401, 0x714260ad], 0x00000000,
             [0x8c87346b, 0x8e04ecb9, 0x85a07b5f, 0xe5030380, 0x1cc92596, 0x32ca2d8c, 0x0c657a79, 0x9b27a401]);
    NextHash(10, [0x8c87346b, 0x8e04ecb9, 0x85a07b5f, 0xe5030380, 0x1cc92596, 0x32ca2d8c, 0x0c657a79, 0x9b27a401], 0x00000000,
             [0x4798a3f4, 0x8c87346b, 0x8e04ecb9, 0x85a07b5f, 0x436b23e8, 0x1cc92596, 0x32ca2d8c, 0x0c657a79]);
    NextHash(11, [0x4798a3f4, 0x8c87346b, 0x8e04ecb9, 0x85a07b5f, 0x436b23e8, 0x1cc92596, 0x32ca2d8c, 0x0c657a79], 0x00000000,
             [0xf71fc5a9, 0x4798a3f4, 0x8c87346b, 0x8e04ecb9, 0x816fd6e9, 0x436b23e8, 0x1cc92596, 0x32ca2d8c]);
  }

  lemma After16()
    ensures HashIs(16, [0xb0fa238e, 0xc0645fde, 0xd932eb16, 0x87912990, 0x07590dcd, 0x0b92f20c, 0x745a48de, 0x1e578218])
  {
    hide WordIs, HashIs;
    After12();
    FirstWords();
    NextHash(12, [0xf71fc5a9, 0x4798a3f4, 0x8c87346b, 0x8e04ecb9, 0x816fd6e9, 0x436b23e8, 0x1cc92596, 0x32ca2d8c], 0x00000000,
             [0x87912990, 0xf71fc5a9, 0x4798a3f4, 0x8c87346b, 0x1e578218, 0x816fd6e9, 0x436b23e8, 0x1cc92596]);
    NextHash(13, [0x87912990, 0xf71fc5a9, 0x4798a3f4, 0x8c87346b, 0x1e578218, 0x816fd6e9, 0x436b23e8, 0x1cc92596], 0x00000000,
             [0xd932eb16, 0x87912990, 0xf71fc5a9, 0x4798a3f4, 0x745a48de, 0x1e578218, 0x816fd6e9, 0x436b23e8]);
    NextHash(14, [0xd932eb16, 0x87912990, 0xf71fc5a9, 0x4798a3f4, 0x745a48de, 0x1e578218, 0x816fd6e9, 0x436b23e8], 0x00000000,
             [0xc0645fde, 0xd932eb16, 0x87912990, 0xf71fc5a9, 0x0b92f20c, 0x745a48de, 0x1e578218, 0x816fd6e9]);
    NextHash(15, [0xc0645fde, 0xd932eb16, 0x87912990, 0xf71fc5a9, 0x0b92f20c, 0x745a48de, 0x1e578218, 0x816fd6e9], 0x00000018,
             [0xb0fa238e, 0xc0645fde, 0xd932eb16, 0x87912990, 0x07590dcd, 0x0b92f20c, 0x745a48de, 0x1e578218]);
  }

  lemma After20()
    ensures HashIs(20, [0xe1f20c33, 0xfe777bbf, 0xc2fbd9d1, 0x21da9a9b, 0xb0638179, 0xcc899961, 0x846ee454, 0x8034229c])
  {
    hide WordIs, HashIs;
    After16();
    Words16();
    NextHash(16, [0xb0fa238e, 0xc0645fde, 0xd932eb16, 0x87912990, 0x07590dcd, 0x0b92f20c, 0x745a48de, 0x1e578218], 0x61626380,
             [0x21da9a9b, 0xb0fa238e, 0xc0645fde, 0xd932eb16, 0x8034229c, 0x07590dcd, 0x0b92f20c, 0x745a48de]);
    NextHash(17, [0x21da9a9b, 0xb0fa238e, 0xc0645fde, 0xd932eb16, 0x8034229c, 0x07590dcd, 0x0b92f20c, 0x745a48de], 0x000f0000,
             [0xc2fbd9d1, 0x21da9a9b, 0xb0fa238e, 0xc0645fde, 0x846ee454, 0x8034229c, 0x07590dcd, 0x0b92f20c]);
    NextHash(18, [0xc2fbd9d1, 0x21da9a9b, 0xb0fa238e, 0xc0645fde, 0x846ee454, 0x8034229c, 0x07590dcd, 0x0b92f20c], 0x7da86405,
             [0xfe777bbf, 0xc2fbd9d1, 0x21da9a9b, 0xb0fa238e, 0xcc899961, 0x846ee454, 0x8034229c, 0x07590dcd]);
    NextHash(19, [0xfe777bbf, 0xc2fbd9d1, 0x21da9a9b, 0xb0fa238e, 0xcc899961, 0x846ee454, 0x8034229c, 0x07590dcd], 0x600003c6,
             [0xe1f20c33, 0xfe777bbf, 0xc2fbd9d1, 0x21da9a9b, 0xb0638179, 0xcc899961, 0x846ee454, 0x8034229c]);
  }

  lemma After24()
    ensures HashIs(24, [0xc5d53d8d, 0xa7a3623f, 0xc2606d6d, 0x9dc68b63, 0xaa47c347, 0x49f5114a, 0xe1257970, 0x8ada8930])
  {
    hide WordIs, HashIs;
    After20();
    Words16();
    NextHash(20, [0xe1f20c33, 0xfe777bbf, 0xc2fbd9d1, 0x21da9a9b, 0xb0638179, 0xcc899961, 0x846ee454, 0x8034229c], 0x3e9d7b78,
             [0x9dc68b63, 0xe1f20c33, 0xfe777bbf, 0xc2fbd9d1, 0x8ada8930, 0xb0638179, 0xcc899961, 0x846ee454]);
    NextHash(21, [0x9dc68b63, 0xe1f20c33, 0xfe777bbf, 0xc2fbd9d1, 0x8ada8930, 0xb0638179, 0xcc899961, 0x846ee454], 0x0183fc00,
             [0xc2606d6d, 0x9dc68b63, 0xe1f20c33, 0xfe777bbf, 0xe1257970, 0x8ada8930, 0xb0638179, 0xcc899961]);
    NextHash(22, [0xc2606d6d, 0x9dc68b63, 0xe1f20c33, 0xfe777bbf, 0xe1257970, 0x8ada8930, 0xb0638179, 0xcc899961], 0x12dcbfdb,
             [0xa7a3623f, 0xc2606d6d, 0x9dc68b63, 0xe1f20c33, 0x49f5114a, 0xe1257970, 0x8ada8930, 0xb0638179]);
    NextHash(23, [0xa7a3623f, 0xc2606d6d, 0x9dc68b63, 0xe1f20c33, 0x49f5114a, 0xe1257970, 0x8ada8930, 0xb0638179], 0xe2e2c38e,
             [0xc5d53d8d, 0xa7a3623f, 0xc2606d6d, 0x9dc68b63, 0xaa47c347, 0x49f5114a, 0xe1257970, 0x8ada8930]);
  }

  lemma After28()
    ensures HashIs(28, [0x77d37528, 0xb62ec4bc, 0xcde8037d, 0x1c2c2838, 0xedffbff8, 0xc74c6516, 0x14383d8e, 0x2823ef91])
  {
    hide WordIs, HashIs;
    After24();
    Words24();
    NextHash(24, [0xc5d53d8d, 0xa7a3623f, 0xc2606d6d, 0x9dc68b63, 0xaa47c347, 0x49f5114a, 0xe1257970, 0x8ada8930], 0xc8215c1a,
             [0x1c2c2838, 0xc5d53d8d, 0xa7a3623f, 0xc2606d6d, 0x2823ef91, 0xaa47c347, 0x49f5114a, 0xe1257970]);
    NextHash(25, [0x1c2c2838, 0xc5d53d8d, 0xa7a3623f, 0xc2606d6d, 0x2823ef91, 0xaa47c347, 0x49f5114a, 0xe1257970], 0xb73679a2,
             [0xcde8037d, 0x1c2c2838, 0xc5d53d8d, 0xa7a3623f, 0x14383d8e, 0x2823ef91, 0xaa47c347, 0x49f5114a]);
    NextHash(26, [0xcde8037d, 0x1c2c2838, 0xc5d53d8d, 0xa7a3623f, 0x14383d8e, 0x2823ef91, 0xaa47c347, 0x49f5114a], 0xe5bc3909,
             [0xb62ec4bc, 0xcde8037d, 0x1c2c2838, 0xc5d53d8d, 0xc74c6516, 0x14383d8e, 0x2823ef91, 0xaa47c347]);
    NextHash(27, [0xb62ec4bc, 0xcde8037d, 0x1c2c2838, 0xc5d53d8d, 0xc74c6516, 0x14383d8e, 0x2823ef91, 0xaa47c347], 0x32663c5b,
             [0x77d37528, 0xb62ec4bc, 0xcde8037d, 0x1c2c2838, 0xedffbff8, 0xc74c6516, 0x14383d8e, 0x2823ef91]);
  }

  lemma After32()
    ensures HashIs(32, [0x73b33bf5, 0xea992a22, 0xa0060b30, 0x363482c9, 0xba591112, 0x0109ab3a, 0xade79437, 0x6112a3b7])
  {
    hide WordIs, HashIs;
    After28();
    Words24();
    NextHash(28, [0x77d37528, 0xb62ec4bc, 0xcde8037d, 0x1c2c2838, 0xedffbff8, 0xc74c6516, 0x14383d8e, 0x2823ef91], 0x9d209d67,
             [0x363482c9, 0x77d37528, 0xb62ec4bc, 0xcde8037d, 0x6112a3b7, 0xedffbff8, 0xc74c6516, 0x14383d8e]);
    NextHash(29, [0x363482c9, 0x77d37528, 0xb62ec4bc, 0xcde8037d, 0x6112a3b7, 0xedffbff8, 0xc74c6516, 0x14383d8e], 0xec8726cb,
             [0xa0060b30, 0x363482c9, 0x77d37528, 0xb62ec4bc, 0xade79437, 0x6112a3b7, 0xedffbff8, 0xc74c6516]);
    NextHash(30, [0xa0060b30, 0x363482c9, 0x77d37528, 0xb62ec4bc, 0xade79437, 0x6112a3b7, 0xedffbff8, 0xc74c6516], 0x702138a4,
             [0xea992a22, 0xa0060b30, 0x363482c9, 0x77d37528, 0x0109ab3a, 0xade79437, 0x6112a3b7, 0xedffbff8]);
    NextHash(31, [0xea992a22, 0xa0060b30, 0x363482c9, 0x77d37528, 0x0109ab3a, 0xade79437, 0x6112a3b7, 0xedffbff8], 0xd3b7973b,
             [0x73b33bf5, 0xea992a22, 0xa0060b30, 0x363482c9, 0xba591112, 0x0109ab3a, 0xade79437, 0x6112a3b7]);
  }

  lemma After36()
    ensures HashIs(36, [0x65a0cfe4, 0xa9a7738c, 0xfe604df5, 0x98e12507, 0xf4b002d6, 0x085f3833, 0x59249dd3, 0x9cd9f5f6])
  {
    hide WordIs, HashIs;
    After32();
    Words32();
    NextHash(32, [0x73b33bf5, 0xea992a22, 0xa0060b30, 0x363482c9, 0xba591112, 0x0109ab3a, 0xade79437, 0x6112a3b7], 0x93f5997f,
             [0x98e12507, 0x73b33bf5, 0xea992a22, 0xa0060b30, 0x9cd9f5f6, 0xba591112, 0x0109ab3a, 0xade79437]);
    NextHash(33, [0x98e12507, 0x73b33bf5, 0xea992a22, 0xa0060b30, 0x9cd9f5f6, 0xba591112, 0x0109ab3a, 0xade79437], 0x3b68ba73,
             [0xfe604df5, 0x98e12507, 0x73b33bf5, 0xea992a22, 0x59249dd3, 0x9cd9f5f6, 0xba591112, 0x0109ab3a]);
    NextHash(34, [0xfe604df5, 0x98e12507, 0x73b33bf5, 0xea992a22, 0x59249dd3, 0x9cd9f5f6, 0xba591112, 0x0109ab3a], 0xaff4ffc1,
             [0xa9a7738c, 0xfe604df5, 0x98e12507, 0x73b33bf5, 0x085f3833, 0x59249dd3, 0x9cd9f5f6, 0xba591112]);
    NextHash(35, [0xa9a7738c, 0xfe604df5, 0x98e12507, 0x73b33bf5, 0x085f3833, 0x59249dd3, 0x9cd9f5f6, 0xba591112], 0xf10a5c62,
             [0x65a0cfe4, 0xa9a7738c, 0xfe604df5, 0x98e12507, 0xf4b002d6, 0x085f3833, 0x59249dd3, 0x9cd9f5f6]);
  }

  lemma After40()
    ensures HashIs(40, [0x79ea687a, 0x6dc57a8a, 0x34df1604, 0x41a65cb1, 0x1efbc0a0, 0xf0781bc8, 0xa507a53d, 0x0772a26b])
  {
    hide WordIs, HashIs;
    After36();
    Words32();
    NextHash(36, [0x65a0cfe4, 0xa9a7738c, 0xfe604df5, 0x98e12507, 0xf4b002d6, 0x085f3833, 0x59249dd3, 0x9cd9f5f6], 0x0a8b3996,
             [0x41a65cb1, 0x65a0cfe4, 0xa9a7738c, 0xfe604df5, 0x0772a26b, 0xf4b002d6, 0x085f3833, 0x59249dd3]);
    NextHash(37, [0x41a65cb1, 0x65a0cfe4, 0xa9a7738c, 0xfe604df5, 0x0772a26b, 0xf4b002d6, 0x085f3833, 0x59249dd3], 0x72af830a,
             [0x34df1604, 0x41a65cb1, 0x65a0cfe4, 0xa9a7738c, 0xa507a53d, 0x0772a26b, 0xf4b002d6, 0x085f3833]);
    NextHash(38, [0x34df1604, 0x41a65cb1, 0x65a0cfe4, 0xa9a7738c, 0xa507a53d, 0x0772a26b, 0xf4b002d6, 0x085f3833], 0x9409e33e,
             [0x6dc57a8a, 0x34df1604, 0x41a65cb1, 0x65a0cfe4, 0xf0781bc8, 0xa507a53d, 0x0772a26b, 0xf4b002d6]);
    NextHash(39, [0x6dc57a8a, 0x34df1604, 0x41a65cb1, 0x65a0cfe4, 0xf0781bc8, 0xa507a53d, 0x0772a26b, 0xf4b002d6], 0x24641522,
             [0x79ea687a, 0x6dc57a8a, 0x34df1604, 0x41a65cb1, 0x1efbc0a0, 0xf0781bc8, 0xa507a53d, 0x0772a26b]);
  }

  lemma After44()
    ensures HashIs(44, [0x9d4baf93, 0x17aa0dfe, 0xdf46652f, 0xd6670766, 0xfda24c2e, 0xdecd4715, 0x838b2711, 0x26352d63])
  {
    hide WordIs, HashIs;
    After40();
    Words40();
    NextHash(40, [0x79ea687a, 0x6dc57a8a, 0x34df1604, 0x41a65cb1, 0x1efbc0a0, 0xf0781bc8, 0xa507a53d, 0x0772a26b], 0x9f47bf94,
             [0xd6670766, 0x79ea687a, 0x6dc57a8a, 0x34df1604, 0x26352d63, 0x1efbc0a0, 0xf0781bc8, 0xa507a53d]);
    NextHash(41, [0xd6670766, 0x79ea687a, 0x6dc57a8a, 0x34df1604, 0x26352d63, 0x1efbc0a0, 0xf0781bc8, 0xa507a53d], 0xf0a64f5a,
             [0xdf46652f, 0xd6670766, 0x79ea687a, 0x6dc57a8a, 0x838b2711, 0x26352d63, 0x1efbc0a0, 0xf0781bc8]);
    NextHash(42, [0xdf46652f, 0xd6670766, 0x79ea687a, 0x6dc57a8a, 0x838b2711, 0x26352d63, 0x1efbc0a0, 0xf0781bc8], 0x3e246a79,
             [0x17aa0dfe, 0xdf46652f, 0xd6670766, 0x79ea687a, 0xdecd4715, 0x838b2711, 0x26352d63, 0x1efbc0a0]);
    NextHash(43, [0x17aa0dfe, 0xdf46652f, 0xd6670766, 0x79ea687a, 0xdecd4715, 0x838b2711, 0x26352d63, 0x1efbc0a0], 0x27333ba3,
             [0x9d4baf93, 0x17aa0dfe, 0xdf46652f, 0xd6670766, 0xfda24c2e, 0xdecd4715, 0x838b2711, 0x26352d63]);
  }

  lemma After48()
    ensures HashIs(48, [0x4172328d, 0xa14c14b0, 0x72ab4b91, 0x26628815, 0xfecf0bc6, 0xd57b94a9, 0xb7755da1, 0xa80f11f0])
  {
    hide WordIs, HashIs;
    After44();
    Words40();
    NextHash(44, [0x9d4baf93, 0x17aa0dfe, 0xdf46652f, 0xd6670766, 0xfda24c2e, 0xdecd4715, 0x838b2711, 0x26352d63], 0x0c4763f2,
             [0x26628815, 0x9d4baf93, 0x17aa0dfe, 0xdf46652f, 0xa80f11f0, 0xfda24c2e, 0xdecd4715, 0x838b2711]);
    NextHash(45, [0x26628815, 0x9d4baf93, 0x17aa0dfe, 0xdf46652f, 0xa80f11f0, 0xfda24c2e, 0xdecd4715, 0x838b2711], 0x840abf27,
             [0x72ab4b91, 0x26628815, 0x9d4baf93, 0x17aa0dfe, 0xb7755da1, 0xa80f11f0, 0xfda24c2e, 0xdecd4715]);
    NextHash(46, [0x72ab4b91, 0x26628815, 0x9d4baf93, 0x17aa0dfe, 0xb7755da1, 0xa80f11f0, 0xfda24c2e, 0xdecd4715], 0x7a290d5d,
             [0xa14c14b0, 0x72ab4b91, 0x26628815, 0x9d4baf93, 0xd57b94a9, 0xb7755da1, 0xa80f11f0, 0xfda24c2e]);
    NextHash(47, [0xa14c14b0, 0x72ab4b91, 0x26628815, 0x9d4baf93, 0xd57b94a9, 0xb7755da1, 0xa80f11f0, 0xfda24c2e], 0x065c43da,
             [0x4172328d, 0xa14c14b0, 0x72ab4b91, 0x26628815, 0xfecf0bc6, 0xd57b94a9, 0xb7755da1, 0xa80f11f0]);
  }

  lemma After52()
    ensures HashIs(52, [0x886e7a22, 0x7a0508a1, 0xf11bfaa8, 0x05757ceb, 0x49231c1e, 0x52f1ccf7, 0x6e5c390c, 0xbd714038])
  {
    hide WordIs, HashIs;
    After48();
    Words48();
    NextHash(48, [0x4172328d, 0xa14c14b0, 0x72ab4b91, 0x26628815, 0xfecf0bc6, 0xd57b94a9, 0xb7755da1, 0xa80f11f0], 0xfb3e89cb,
             [0x05757ceb, 0x4172328d, 0xa14c14b0, 0x72ab4b91, 0xbd714038, 0xfecf0bc6, 0xd57b94a9, 0xb7755da1]);
    NextHash(49, [0x05757ceb, 0x4172328d, 0xa14c14b0, 0x72ab4b91, 0xbd714038, 0xfecf0bc6, 0xd57b94a9, 0xb7755da1], 0xcc7617db,
             [0xf11bfaa8, 0x05757ceb, 0x4172328d, 0xa14c14b0, 0x6e5c390c, 0xbd714038, 0xfecf0bc6, 0xd57b94a9]);
    NextHash(50, [0xf11bfaa8, 0x05757ceb, 0x4172328d, 0xa14c14b0, 0x6e5c390c, 0xbd714038, 0xfecf0bc6, 0xd57b94a9], 0xb9e66c34,
             [0x7a0508a1, 0xf11bfaa8, 0x05757ceb, 0x4172328d, 0x52f1ccf7, 0x6e5c390c, 0xbd714038, 0xfecf0bc6]);
    NextHash(51, [0x7a0508a1, 0xf11bfaa8, 0x05757ceb, 0x4172328d, 0x52f1ccf7, 0x6e5c390c, 0xbd714038, 0xfecf0bc6], 0xa9993667,
             [0x886e7a22, 0x7a0508a1, 0xf11bfaa8, 0x05757ceb, 0x49231c1e, 0x52f1ccf7, 0x6e5c390c, 0xbd714038]);
  }

  lemma After56()
    ensures HashIs(56, [0x38cc9913, 0x3ec45cdb, 0xf5702fdb, 0x101fd28f, 0x54cb266b, 0xe50e1b4f, 0x9f4787c3, 0x529e7d00])
  {
    hide WordIs, HashIs;
    After52();
    Words48();
    NextHash(52, [0x886e7a22, 0x7a0508a1, 0xf11bfaa8, 0x05757ceb, 0x49231c1e, 0x52f1ccf7, 0x6e5c390c, 0xbd714038], 0x84badedd,
             [0x101fd28f, 0x886e7a22, 0x7a0508a1, 0xf11bfaa8, 0x529e7d00, 0x49231c1e, 0x52f1ccf7, 0x6e5c390c]);
    NextHash(53, [0x101fd28f, 0x886e7a22, 0x7a0508a1, 0xf11bfaa8, 0x529e7d00, 0x49231c1e, 0x52f1ccf7, 0x6e5c390c], 0xc21462bc,
             [0xf5702fdb, 0x101fd28f, 0x886e7a22, 0x7a0508a1, 0x9f4787c3, 0x529e7d00, 0x49231c1e, 0x52f1ccf7]);
    NextHash(54, [0xf5702fdb, 0x101fd28f, 0x886e7a22, 0x7a0508a1, 0x9f4787c3, 0x529e7d00, 0x49231c1e, 0x52f1ccf7], 0x1487472c,
             [0x3ec45cdb, 0xf5702fdb, 0x101fd28f, 0x886e7a22, 0xe50e1b4f, 0x9f4787c3, 0x529e7d00, 0x49231c1e]);
    NextHash(55, [0x3ec45cdb, 0xf5702fdb, 0x101fd28f, 0x886e7a22, 0xe50e1b4f, 0x9f4787c3, 0x529e7d00, 0x49231c1e], 0xb20f7a99,
             [0x38cc9913, 0x3ec45cdb, 0xf5702fdb, 0x101fd28f, 0x54cb266b, 0xe50e1b4f, 0x9f4787c3, 0x529e7d00]);
  }

  lemma After60()
    ensures HashIs(60, [0xb6ae8fff, 0xffb70472, 0xc062d46f, 0xfcd1887b, 0xb21bad3d, 0x6d83bfc6, 0x7e44008e, 0x9b5e906c])
  {
    hide WordIs, HashIs;
    After56();
    Words56();
    NextHash(56, [0x38cc9913, 0x3ec45cdb, 0xf5702fdb, 0x101fd28f, 0x54cb266b, 0xe50e1b4f, 0x9f4787c3, 0x529e7d00], 0xef57b9cd,
             [0xfcd1887b, 0x38cc9913, 0x3ec45cdb, 0xf5702fdb, 0x9b5e906c, 0x54cb266b, 0xe50e1b4f, 0x9f4787c3]);
    NextHash(57, [0xfcd1887b, 0x38cc9913, 0x3ec45cdb, 0xf5702fdb, 0x9b5e906c, 0x54cb266b, 0xe50e1b4f, 0x9f4787c3], 0xebe6b238,
             [0xc062d46f, 0xfcd1887b, 0x38cc9913, 0x3ec45cdb, 0x7e44008e, 0x9b5e906c, 0x54cb266b, 0xe50e1b4f]);
    NextHash(58, [0xc062d46f, 0xfcd1887b, 0x38cc9913, 0x3ec45cdb, 0x7e44008e, 0x9b5e906c, 0x54cb266b, 0xe50e1b4f], 0x9fe3095e,
             [0xffb70472, 0xc062d46f, 0xfcd1887b, 0x38cc9913, 0x6d83bfc6, 0x7e44008e, 0x9b5e906c, 0x54cb266b]);
    NextHash(59, [0xffb70472, 0xc062d46f, 0xfcd1887b, 0x38cc9913, 0x6d83bfc6, 0x7e44008e, 0x9b5e906c, 0x54cb266b], 0x78bc8d4b,
             [0xb6ae8fff, 0xffb70472, 0xc062d46f, 0xfcd1887b, 0xb21bad3d, 0x6d83bfc6, 0x7e44008e, 0x9b5e906c]);
  }

  lemma After64()
    ensures HashIs(64, [0x506e3058, 0xd39a2165, 0x04d24d6c, 0xb85e2ce9, 0x5ef50f24, 0xfb121210, 0x948d25b6, 0x961f4894])
  {
    hide WordIs, HashIs;
    After60();
    Words56();
    NextHash(60, [0xb6ae8fff, 0xffb70472, 0xc062d46f, 0xfcd1887b, 0xb21bad3d, 0x6d83bfc6, 0x7e44008e, 0x9b5e906c], 0xa43fcf15,
             [0xb85e2ce9, 0xb6ae8fff, 0xffb70472, 0xc062d46f, 0x961f4894, 0xb21bad3d, 0x6d83bfc6, 0x7e44008e]);
    NextHash(61, [0xb85e2ce9, 0xb6ae8fff, 0xffb70472, 0xc062d46f, 0x961f4894, 0xb21bad3d, 0x6d83bfc6, 0x7e44008e], 0x668b2ff8,
             [0x04d24d6c, 0xb85e2ce9, 0xb6ae8fff, 0xffb70472, 0x948d25b6, 0x961f4894, 0xb21bad3d, 0x6d83bfc6]);
    NextHash(62, [0x04d24d6c, 0xb85e2ce9, 0xb6ae8fff, 0xffb70472, 0x948d25b6, 0x961f4894, 0xb21bad3d, 0x6d83bfc6], 0xeeaba2cc,
             [0xd39a2165, 0x04d24d6c, 0xb85e2ce9, 0xb6ae8fff, 0xfb121210, 0x948d25b6, 0x961f4894, 0xb21bad3d]);
    NextHash(63, [0xd39a2165, 0x04d24d6c, 0xb85e2ce9, 0xb6ae8fff, 0xfb121210, 0x948d25b6, 0x961f4894, 0xb21bad3d], 0x12b1edeb,
             [0x506e3058, 0xd39a2165, 0x04d24d6c, 0xb85e2ce9, 0x5ef50f24, 0xfb121210, 0x948d25b6, 0x961f4894]);
  }

  lemma FirstHash()
    ensures HashIs(0, [0x6a09e667, 0xbb67ae85, 0x3c6ef372, 0xa54ff53a, 0x510e527f, 0x9b05688c, 0x1f83d9ab, 0x5be0cd19])
  {
    hide AbcBlock;
    RoundsStart(InitialHash(), AbcBlock());
  }

  // ----- the digest -----

  function AbcDigest(): seq<Octet> {
    [0xba, 0x78, 0x16, 0xbf, 0x8f, 0x01, 0xcf, 0xea, 0x41, 0x41, 0x40, 0xde, 0x5d, 0xae, 0x22, 0x23,
     0xb0, 0x03, 0x61, 0xa3, 0x96, 0x17, 0x7a, 0x9c, 0xb4, 0x10, 0xff, 0x61, 0xf2, 0x00, 0x15, 0xad]
  }

  lemma AbcAdded()
    ensures Added(InitialHash(), [0x506e3058, 0xd39a2165, 0x04d24d6c, 0xb85e2ce9, 0x5ef50f24, 0xfb121210, 0x948d25b6, 0x961f4894])
            == [0xba7816bf, 0x8f01cfea, 0x414140de, 0x5dae2223, 0xb00361a3, 0x96177a9c, 0xb410ff61, 0xf20015ad]
  {
  }

  lemma {:induction false} ZeroBytes(n: nat)
    ensures BigEndian(0, n) == ZeroOctets(n)
  {
    if n > 0 {
      ZeroBytes(n - 1);
    }
  }

  lemma AbcPadded()
    ensures Padded(Abc()) == AbcBlock()
  {
    ZeroBytes(7);
    assert ZerosNeeded(3) == 52 && BigEndian(24, 8) == BigEndian(0, 7) + [24];
  }

  lemma OctetsPush(h: seq<Word>, w: Word)
    ensures Octets(h + [w]) == Octets(h) + OctetsOf(w)
  {
    assert (h + [w])[..|h|] == h;
  }

  lemma OctetsOfFour(a: Word, b: Word, c: Word, d: Word)
    ensures Octets([a, b, c, d]) == OctetsOf(a) + OctetsOf(b) + OctetsOf(c) + OctetsOf(d)
  {
    hide OctetsOf, Octets;
    OctetsPush([a, b, c], d);
    OctetsPush([a, b], c);
    OctetsPush([a], b);
    OctetsPush([], a);
    assert [a, b, c] + [d] == [a, b, c, d] && [a, b] + [c] == [a, b, c] && [a] + [b] == [a, b] && [] + [a] == [a];
    assert Octets([]) == [] by {
      NoOctets();
    }
  }

  lemma NoOctets()
    ensures Octets([]) == []
  {
  }

  lemma {:induction false} OctetsParts(g: seq<Word>, h: seq<Word>)
    ensures Octets(g + h) == Octets(g) + Octets(h)
    decreases |h|
  {
    if h == [] {
      assert g + h == g;
    } else {
      OctetsParts(g, h[..|h| - 1]);
      assert (g + h)[..|g + h| - 1] == g + h[..|h| - 1];
    }
  }

  lemma AbcOctets()
    ensures Octets([0xba7816bf, 0x8f01cfea, 0x414140de, 0x5dae2223, 0xb00361a3, 0x96177a9c, 0xb410ff61, 0xf20015ad]) == AbcDigest()
  {
    hide Octets, OctetsOf;
    var g, h := [0xba7816bf, 0x8f01cfea, 0x414140de, 0x5dae2223], [0xb00361a3, 0x96177a9c, 0xb410ff61, 0xf20015ad];
    OctetsParts(g, h);
    OctetsOfFour(0xba7816bf, 0x8f01cfea, 0x414140de, 0x5dae2223);
    OctetsOfFour(0xb00361a3, 0x96177a9c, 0xb410ff61, 0xf20015ad);
    AbcOctetsOf();
    assert g + h == [0xba7816bf, 0x8f01cfea, 0x414140de, 0x5dae2223, 0xb00361a3, 0x96177a9c, 0xb410ff61, 0xf20015ad];
  }

  lemma AbcOctetsOf()
    ensures OctetsOf(0xba7816bf) == [0xba, 0x78, 0x16, 0xbf]
    ensures OctetsOf(0x8f01cfea) == [0x8f, 0x01, 0xcf, 0xea]
    ensures OctetsOf(0x414140de) == [0x41, 0x41, 0x40, 0xde]
    ensures OctetsOf(0x5dae2223) == [0x5d, 0xae, 0x22, 0x23]
    ensures OctetsOf(0xb00361a3) == [0xb0, 0x03, 0x61, 0xa3]
    ensures OctetsOf(0x96177a9c) == [0x96, 0x17, 0x7a, 0x9c]
    ensures OctetsOf(0xb410ff61) == [0xb4, 0x10, 0xff, 0x61]
    ensures OctetsOf(0xf20015ad) == [0xf2, 0x00, 0x15, 0xad]
  {
  }

  /** The digest of "abc" is the published one. */
  lemma DigestOfAbc()
    ensures Sha256Spec.Sha256(Abc()) == AbcDigest()
  {
    hide Abc, AbcBlock, AbcDigest, Added, Octets, Rounds, Padded, InitialHash;
    AbcPadded();
    AbcCompressed();
    OneBlock(AbcBlock());
    AbcAdded();
    AbcOctets();
    AbcShort();
  }

  lemma AbcShort()
    ensures |Abc()| < LIMIT
  {
  }

  lemma AbcCompressed()
    ensures Compress(InitialHash(), AbcBlock()) == Added(InitialHash(), [0x506e3058, 0xd39a2165, 0x04d24d6c, 0xb85e2ce9, 0x5ef50f24, 0xfb121210, 0x948d25b6, 0x961f4894])
  {
    hide AbcBlock, Added, Rounds, InitialHash;
    After64();
  }

  lemma OneBlock(block: Block)
    ensures HashOf(block, |block| / BLOCK) == Compress(InitialHash(), block)
  {
    hide Compress;
    assert HashOf(block, 0) == InitialHash() && block[BLOCK * 0..BLOCK * 1] == block;
  }

  /** It is what the code computes. */
  method HashAbc() returns (digest: seq<Octet>)
    ensures digest == AbcDigest()
  {
    hide Sha256Spec.Sha256, AbcDigest;
    DigestOfAbc();
    digest := EasyHash(Abc());
  }
}
