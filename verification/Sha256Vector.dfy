/** Hashing one block, for any primitives: what it takes to know the result from tables of its steps. */
module CompressionTrace {
  import opened HashSpec
  import opened CompressionSpec

  /** `word` lists the schedule of `block`. */
  ghost predicate IsSchedule<W(!new)>(p: Primitives<W>, block: Block, word: nat -> W) {
    && (forall t | 0 <= t < 16 :: Loaded(p, block, word, t))
    && (forall t | 16 <= t < 64 :: Extended(p, word, t))
  }

  ghost predicate Loaded<W(!new)>(p: Primitives<W>, block: Block, word: nat -> W, t: nat)
    requires t < 16
  {
    word(t) == p.load(block[4 * t], block[4 * t + 1], block[4 * t + 2], block[4 * t + 3])
  }

  ghost predicate Extended<W(!new)>(p: Primitives<W>, word: nat -> W, t: nat)
    requires t >= 16
  {
    word(t) == p.add(p.add(p.add(p.smallSigma1(word(t - 2)), word(t - 7)), p.smallSigma0(word(t - 15))), word(t - 16))
  }

  lemma {:induction false} ScheduleIs<W(!new)>(p: Primitives<W>, block: Block, word: nat -> W, t: nat)
    requires IsSchedule(p, block, word) && t < 64
    ensures Schedule(p, block, t) == word(t)
  {
    if t < 16 {
      assert Loaded(p, block, word, t);
    } else {
      ScheduleIs(p, block, word, t - 2);
      ScheduleIs(p, block, word, t - 7);
      ScheduleIs(p, block, word, t - 15);
      ScheduleIs(p, block, word, t - 16);
      assert Extended(p, word, t);
    }
  }

  /** `state` lists the working variables before each round. */
  ghost predicate AreRounds<W(!new)>(p: Primitives<W>, word: nat -> W, state: nat -> Vars<W>) {
    forall t | 0 <= t < 64 :: Rounded(p, word, state, t)
  }

  ghost predicate Rounded<W(!new)>(p: Primitives<W>, word: nat -> W, state: nat -> Vars<W>, t: nat) {
    state(t + 1) == Round(p, state(t), p.k(t), word(t))
  }

  lemma {:induction false} RoundsAre<W(!new)>(p: Primitives<W>, block: Block, word: nat -> W, state: nat -> Vars<W>, t: nat)
    requires IsSchedule(p, block, word) && AreRounds(p, word, state) && t <= 64
    ensures Rounds(p, state(0), block, t) == state(t)
  {
    if t > 0 {
      RoundsAre(p, block, word, state, t - 1);
      ScheduleIs(p, block, word, t - 1);
      assert Rounded(p, word, state, t - 1);
    }
  }

  lemma CompressIs<W(!new)>(p: Primitives<W>, block: Block, word: nat -> W, state: nat -> Vars<W>)
    requires IsSchedule(p, block, word) && AreRounds(p, word, state)
    ensures Compress(p, state(0), block) == Add(p, state(0), state(64))
  {
    RoundsAre(p, block, word, state, 64);
  }

  /** A message that pads to one block takes one compression. */
  lemma OneBlock<V>(alg: Algorithm<V>, m: seq<bv8>, block: Block)
    requires m + Padding(|m|) == block
    ensures Hash(alg, m) == alg.emit(alg.compress(alg.initial, block))
  {
    assert block[..64] == block && |block[64..]| < 64;
    assert Absorb(alg.compress, alg.compress(alg.initial, block), block[64..]) == alg.compress(alg.initial, block);
  }
}

/**
 * SHA-256 of the three bytes "abc": the words of its schedule, the two new variables of each of the
 * 64 rounds, and the digest that FIPS 180-4 and the repository's own tests give for it.
 */
module Sha256Vector {
  import opened Words
  import opened HashSpec
  import opened CompressionSpec
  import opened CompressionTrace
  import opened Sha256Spec

  const WORDS: seq<seq<bv32>> := [
    [0x61626380, 0x00000000, 0x00000000, 0x00000000, 0x00000000, 0x00000000, 0x00000000, 0x00000000],
    [0x00000000, 0x00000000, 0x00000000, 0x00000000, 0x00000000, 0x00000000, 0x00000000, 0x00000018],
    [0x61626380, 0x000f0000, 0x7da86405, 0x600003c6, 0x3e9d7b78, 0x0183fc00, 0x12dcbfdb, 0xe2e2c38e],
    [0xc8215c1a, 0xb73679a2, 0xe5bc3909, 0x32663c5b, 0x9d209d67, 0xec8726cb, 0x702138a4, 0xd3b7973b],
    [0x93f5997f, 0x3b68ba73, 0xaff4ffc1, 0xf10a5c62, 0x0a8b3996, 0x72af830a, 0x9409e33e, 0x24641522],
    [0x9f47bf94, 0xf0a64f5a, 0x3e246a79, 0x27333ba3, 0x0c4763f2, 0x840abf27, 0x7a290d5d, 0x065c43da],
    [0xfb3e89cb, 0xcc7617db, 0xb9e66c34, 0xa9993667, 0x84badedd, 0xc21462bc, 0x1487472c, 0xb20f7a99],
    [0xef57b9cd, 0xebe6b238, 0x9fe3095e, 0x78bc8d4b, 0xa43fcf15, 0x668b2ff8, 0xeeaba2cc, 0x12b1edeb]]

  /** Variable a: four values to start from, then the one after each round. */
  const AS: seq<seq<bv32>> := [
    [0xa54ff53a, 0x3c6ef372, 0xbb67ae85, 0x6a09e667, 0x5d6aebcd, 0x5a6ad9ad, 0xc8c347a7, 0xd550f666],
    [0x04409a6a, 0x2b4209f5, 0xe5030380, 0x85a07b5f, 0x8e04ecb9, 0x8c87346b, 0x4798a3f4, 0xf71fc5a9],
    [0x87912990, 0xd932eb16, 0xc0645fde, 0xb0fa238e, 0x21da9a9b, 0xc2fbd9d1, 0xfe777bbf, 0xe1f20c33],
    [0x9dc68b63, 0xc2606d6d, 0xa7a3623f, 0xc5d53d8d, 0x1c2c2838, 0xcde8037d, 0xb62ec4bc, 0x77d37528],
    [0x363482c9, 0xa0060b30, 0xea992a22, 0x73b33bf5, 0x98e12507, 0xfe604df5, 0xa9a7738c, 0x65a0cfe4],
    [0x41a65cb1, 0x34df1604, 0x6dc57a8a, 0x79ea687a, 0xd6670766, 0xdf46652f, 0x17aa0dfe, 0x9d4baf93],
    [0x26628815, 0x72ab4b91, 0xa14c14b0, 0x4172328d, 0x05757ceb, 0xf11bfaa8, 0x7a0508a1, 0x886e7a22],
    [0x101fd28f, 0xf5702fdb, 0x3ec45cdb, 0x38cc9913, 0xfcd1887b, 0xc062d46f, 0xffb70472, 0xb6ae8fff],
    [0xb85e2ce9, 0x04d24d6c, 0xd39a2165, 0x506e3058]]

  /** Variable e. */
  const ES: seq<seq<bv32>> := [
    [0x5be0cd19, 0x1f83d9ab, 0x9b05688c, 0x510e527f, 0xfa2a4622, 0x78ce7989, 0xf92939eb, 0x24e00850],
    [0x43ada245, 0x714260ad, 0x9b27a401, 0x0c657a79, 0x32ca2d8c, 0x1cc92596, 0x436b23e8, 0x816fd6e9],
    [0x1e578218, 0x745a48de, 0x0b92f20c, 0x07590dcd, 0x8034229c, 0x846ee454, 0xcc899961, 0xb0638179],
    [0x8ada8930, 0xe1257970, 0x49f5114a, 0xaa47c347, 0x2823ef91, 0x14383d8e, 0xc74c6516, 0xedffbff8],
    [0x6112a3b7, 0xade79437, 0x0109ab3a, 0xba591112, 0x9cd9f5f6, 0x59249dd3, 0x085f3833, 0xf4b002d6],
    [0x0772a26b, 0xa507a53d, 0xf0781bc8, 0x1efbc0a0, 0x26352d63, 0x838b2711, 0xdecd4715, 0xfda24c2e],
    [0xa80f11f0, 0xb7755da1, 0xd57b94a9, 0xfecf0bc6, 0xbd714038, 0x6e5c390c, 0x52f1ccf7, 0x49231c1e],
    [0x529e7d00, 0x9f4787c3, 0xe50e1b4f, 0x54cb266b, 0x9b5e906c, 0x7e44008e, 0x6d83bfc6, 0xb21bad3d],
    [0x961f4894, 0x948d25b6, 0xfb121210, 0x5ef50f24]]

  function Entry(table: seq<seq<bv32>>, t: nat): bv32 {
    if t / 8 < |table| && t % 8 < |table[t / 8]| then table[t / 8][t % 8] else 0
  }

  function Word(t: nat): bv32 {
    Entry(WORDS, t)
  }

  function State(t: nat): Vars<bv32> {
    Vars(Entry(AS, t + 3), Entry(AS, t + 2), Entry(AS, t + 1), Entry(AS, t),
         Entry(ES, t + 3), Entry(ES, t + 2), Entry(ES, t + 1), Entry(ES, t))
  }

  /** The padded message: "abc", a one bit, zeros, and the length of 24 bits. */
  function AbcBlock(): Block {
    [0x61, 0x62, 0x63, 0x80] + Zeros(59) + [0x18]
  }

  lemma LoadedFrom0(t: nat)
    requires 0 <= t < 4
    ensures Loaded(FIPS, AbcBlock(), Word, t)
  {
    assert t == 0 || t == 1 || t == 2 || t == 3;
  }

  lemma LoadedFrom4(t: nat)
    requires 4 <= t < 8
    ensures Loaded(FIPS, AbcBlock(), Word, t)
  {
    assert t == 4 || t == 5 || t == 6 || t == 7;
  }

  lemma LoadedFrom8(t: nat)
    requires 8 <= t < 12
    ensures Loaded(FIPS, AbcBlock(), Word, t)
  {
    assert t == 8 || t == 9 || t == 10 || t == 11;
  }

  lemma LoadedFrom12(t: nat)
    requires 12 <= t < 16
    ensures Loaded(FIPS, AbcBlock(), Word, t)
  {
    assert t == 12 || t == 13 || t == 14 || t == 15;
  }

  lemma ExtendedFrom16(t: nat)
    requires 16 <= t < 18
    ensures Extended(FIPS, Word, t)
  {
    assert t == 16 || t == 17;
  }

  lemma ExtendedFrom18(t: nat)
    requires 18 <= t < 20
    ensures Extended(FIPS, Word, t)
  {
    assert t == 18 || t == 19;
  }

  lemma ExtendedFrom20(t: nat)
    requires 20 <= t < 22
    ensures Extended(FIPS, Word, t)
  {
    assert t == 20 || t == 21;
  }

  lemma ExtendedFrom22(t: nat)
    requires 22 <= t < 24
    ensures Extended(FIPS, Word, t)
  {
    assert t == 22 || t == 23;
  }

  lemma ExtendedFrom24(t: nat)
    requires 24 <= t < 26
    ensures Extended(FIPS, Word, t)
  {
    assert t == 24 || t == 25;
  }

  lemma ExtendedFrom26(t: nat)
    requires 26 <= t < 28
    ensures Extended(FIPS, Word, t)
  {
    assert t == 26 || t == 27;
  }

  lemma ExtendedFrom28(t: nat)
    requires 28 <= t < 30
    ensures Extended(FIPS, Word, t)
  {
    assert t == 28 || t == 29;
  }

  lemma ExtendedFrom30(t: nat)
    requires 30 <= t < 32
    ensures Extended(FIPS, Word, t)
  {
    assert t == 30 || t == 31;
  }

  lemma ExtendedFrom32(t: nat)
    requires 32 <= t < 34
    ensures Extended(FIPS, Word, t)
  {
    assert t == 32 || t == 33;
  }

  lemma ExtendedFrom34(t: nat)
    requires 34 <= t < 36
    ensures Extended(FIPS, Word, t)
  {
    assert t == 34 || t == 35;
  }

  lemma ExtendedFrom36(t: nat)
    requires 36 <= t < 38
    ensures Extended(FIPS, Word, t)
  {
    assert t == 36 || t == 37;
  }

  lemma ExtendedFrom38(t: nat)
    requires 38 <= t < 40
    ensures Extended(FIPS, Word, t)
  {
    assert t == 38 || t == 39;
  }

  lemma ExtendedFrom40(t: nat)
    requires 40 <= t < 42
    ensures Extended(FIPS, Word, t)
  {
    assert t == 40 || t == 41;
  }

  lemma ExtendedFrom42(t: nat)
    requires 42 <= t < 44
    ensures Extended(FIPS, Word, t)
  {
    assert t == 42 || t == 43;
  }

  lemma ExtendedFrom44(t: nat)
    requires 44 <= t < 46
    ensures Extended(FIPS, Word, t)
  {
    assert t == 44 || t == 45;
  }

  lemma ExtendedFrom46(t: nat)
    requires 46 <= t < 48
    ensures Extended(FIPS, Word, t)
  {
    assert t == 46 || t == 47;
  }

  lemma ExtendedFrom48(t: nat)
    requires 48 <= t < 50
    ensures Extended(FIPS, Word, t)
  {
    assert t == 48 || t == 49;
  }

  lemma ExtendedFrom50(t: nat)
    requires 50 <= t < 52
    ensures Extended(FIPS, Word, t)
  {
    assert t == 50 || t == 51;
  }

  lemma ExtendedFrom52(t: nat)
    requires 52 <= t < 54
    ensures Extended(FIPS, Word, t)
  {
    assert t == 52 || t == 53;
  }

  lemma ExtendedFrom54(t: nat)
    requires 54 <= t < 56
    ensures Extended(FIPS, Word, t)
  {
    assert t == 54 || t == 55;
  }

  lemma ExtendedFrom56(t: nat)
    requires 56 <= t < 58
    ensures Extended(FIPS, Word, t)
  {
    assert t == 56 || t == 57;
  }

  lemma ExtendedFrom58(t: nat)
    requires 58 <= t < 60
    ensures Extended(FIPS, Word, t)
  {
    assert t == 58 || t == 59;
  }

  lemma ExtendedFrom60(t: nat)
    requires 60 <= t < 62
    ensures Extended(FIPS, Word, t)
  {
    assert t == 60 || t == 61;
  }

  lemma ExtendedFrom62(t: nat)
    requires 62 <= t < 64
    ensures Extended(FIPS, Word, t)
  {
    assert t == 62 || t == 63;
  }

  lemma RoundedFrom0(t: nat)
    requires 0 <= t < 2
    ensures Rounded(FIPS, Word, State, t)
  {
    assert t == 0 || t == 1;
  }

  lemma RoundedFrom2(t: nat)
    requires 2 <= t < 4
    ensures Rounded(FIPS, Word, State, t)
  {
    assert t == 2 || t == 3;
  }

  lemma RoundedFrom4(t: nat)
    requires 4 <= t < 6
    ensures Rounded(FIPS, Word, State, t)
  {
    assert t == 4 || t == 5;
  }

  lemma RoundedFrom6(t: nat)
    requires 6 <= t < 8
    ensures Rounded(FIPS, Word, State, t)
  {
    assert t == 6 || t == 7;
  }

  lemma RoundedFrom8(t: nat)
    requires 8 <= t < 10
    ensures Rounded(FIPS, Word, State, t)
  {
    assert t == 8 || t == 9;
  }

  lemma RoundedFrom10(t: nat)
    requires 10 <= t < 12
    ensures Rounded(FIPS, Word, State, t)
  {
    assert t == 10 || t == 11;
  }

  lemma RoundedFrom12(t: nat)
    requires 12 <= t < 14
    ensures Rounded(FIPS, Word, State, t)
  {
    assert t == 12 || t == 13;
  }

  lemma RoundedFrom14(t: nat)
    requires 14 <= t < 16
    ensures Rounded(FIPS, Word, State, t)
  {
    assert t == 14 || t == 15;
  }

  lemma RoundedFrom16(t: nat)
    requires 16 <= t < 18
    ensures Rounded(FIPS, Word, State, t)
  {
    assert t == 16 || t == 17;
  }

  lemma RoundedFrom18(t: nat)
    requires 18 <= t < 20
    ensures Rounded(FIPS, Word, State, t)
  {
    assert t == 18 || t == 19;
  }

  lemma RoundedFrom20(t: nat)
    requires 20 <= t < 22
    ensures Rounded(FIPS, Word, State, t)
  {
    assert t == 20 || t == 21;
  }

  lemma RoundedFrom22(t: nat)
    requires 22 <= t < 24
    ensures Rounded(FIPS, Word, State, t)
  {
    assert t == 22 || t == 23;
  }

  lemma RoundedFrom24(t: nat)
    requires 24 <= t < 26
    ensures Rounded(FIPS, Word, State, t)
  {
    assert t == 24 || t == 25;
  }

  lemma RoundedFrom26(t: nat)
    requires 26 <= t < 28
    ensures Rounded(FIPS, Word, State, t)
  {
    assert t == 26 || t == 27;
  }

  lemma RoundedFrom28(t: nat)
    requires 28 <= t < 30
    ensures Rounded(FIPS, Word, State, t)
  {
    assert t == 28 || t == 29;
  }

  lemma RoundedFrom30(t: nat)
    requires 30 <= t < 32
    ensures Rounded(FIPS, Word, State, t)
  {
    assert t == 30 || t == 31;
  }

  lemma RoundedFrom32(t: nat)
    requires 32 <= t < 34
    ensures Rounded(FIPS, Word, State, t)
  {
    assert t == 32 || t == 33;
  }

  lemma RoundedFrom34(t: nat)
    requires 34 <= t < 36
    ensures Rounded(FIPS, Word, State, t)
  {
    assert t == 34 || t == 35;
  }

  lemma RoundedFrom36(t: nat)
    requires 36 <= t < 38
    ensures Rounded(FIPS, Word, State, t)
  {
    assert t == 36 || t == 37;
  }

  lemma RoundedFrom38(t: nat)
    requires 38 <= t < 40
    ensures Rounded(FIPS, Word, State, t)
  {
    assert t == 38 || t == 39;
  }

  lemma RoundedFrom40(t: nat)
    requires 40 <= t < 42
    ensures Rounded(FIPS, Word, State, t)
  {
    assert t == 40 || t == 41;
  }

  lemma RoundedFrom42(t: nat)
    requires 42 <= t < 44
    ensures Rounded(FIPS, Word, State, t)
  {
    assert t == 42 || t == 43;
  }

  lemma RoundedFrom44(t: nat)
    requires 44 <= t < 46
    ensures Rounded(FIPS, Word, State, t)
  {
    assert t == 44 || t == 45;
  }

  lemma RoundedFrom46(t: nat)
    requires 46 <= t < 48
    ensures Rounded(FIPS, Word, State, t)
  {
    assert t == 46 || t == 47;
  }

  lemma RoundedFrom48(t: nat)
    requires 48 <= t < 50
    ensures Rounded(FIPS, Word, State, t)
  {
    assert t == 48 || t == 49;
  }

  lemma RoundedFrom50(t: nat)
    requires 50 <= t < 52
    ensures Rounded(FIPS, Word, State, t)
  {
    assert t == 50 || t == 51;
  }

  lemma RoundedFrom52(t: nat)
    requires 52 <= t < 54
    ensures Rounded(FIPS, Word, State, t)
  {
    assert t == 52 || t == 53;
  }

  lemma RoundedFrom54(t: nat)
    requires 54 <= t < 56
    ensures Rounded(FIPS, Word, State, t)
  {
    assert t == 54 || t == 55;
  }

  lemma RoundedFrom56(t: nat)
    requires 56 <= t < 58
    ensures Rounded(FIPS, Word, State, t)
  {
    assert t == 56 || t == 57;
  }

  lemma RoundedFrom58(t: nat)
    requires 58 <= t < 60
    ensures Rounded(FIPS, Word, State, t)
  {
    assert t == 58 || t == 59;
  }

  lemma RoundedFrom60(t: nat)
    requires 60 <= t < 62
    ensures Rounded(FIPS, Word, State, t)
  {
    assert t == 60 || t == 61;
  }

  lemma RoundedFrom62(t: nat)
    requires 62 <= t < 64
    ensures Rounded(FIPS, Word, State, t)
  {
    assert t == 62 || t == 63;
  }

  lemma AllLoaded(t: nat)
    requires 0 <= t < 16
    ensures Loaded(FIPS, AbcBlock(), Word, t)
  {
    if t < 4 {
      LoadedFrom0(t);
    } else if t < 8 {
      LoadedFrom4(t);
    } else if t < 12 {
      LoadedFrom8(t);
    } else if t < 16 {
      LoadedFrom12(t);
    }
  }

  lemma AllExtended(t: nat)
    requires 16 <= t < 64
    ensures Extended(FIPS, Word, t)
  {
    if t < 18 {
      ExtendedFrom16(t);
    } else if t < 20 {
      ExtendedFrom18(t);
    } else if t < 22 {
      ExtendedFrom20(t);
    } else if t < 24 {
      ExtendedFrom22(t);
    } else if t < 26 {
      ExtendedFrom24(t);
    } else if t < 28 {
      ExtendedFrom26(t);
    } else if t < 30 {
      ExtendedFrom28(t);
    } else if t < 32 {
      ExtendedFrom30(t);
    } else if t < 34 {
      ExtendedFrom32(t);
    } else if t < 36 {
      ExtendedFrom34(t);
    } else if t < 38 {
      ExtendedFrom36(t);
    } else if t < 40 {
      ExtendedFrom38(t);
    } else if t < 42 {
      ExtendedFrom40(t);
    } else if t < 44 {
      ExtendedFrom42(t);
    } else if t < 46 {
      ExtendedFrom44(t);
    } else if t < 48 {
      ExtendedFrom46(t);
    } else if t < 50 {
      ExtendedFrom48(t);
    } else if t < 52 {
      ExtendedFrom50(t);
    } else if t < 54 {
      ExtendedFrom52(t);
    } else if t < 56 {
      ExtendedFrom54(t);
    } else if t < 58 {
      ExtendedFrom56(t);
    } else if t < 60 {
      ExtendedFrom58(t);
    } else if t < 62 {
      ExtendedFrom60(t);
    } else if t < 64 {
      ExtendedFrom62(t);
    }
  }

  lemma AllRounded(t: nat)
    requires 0 <= t < 64
    ensures Rounded(FIPS, Word, State, t)
  {
    if t < 2 {
      RoundedFrom0(t);
    } else if t < 4 {
      RoundedFrom2(t);
    } else if t < 6 {
      RoundedFrom4(t);
    } else if t < 8 {
      RoundedFrom6(t);
    } else if t < 10 {
      RoundedFrom8(t);
    } else if t < 12 {
      RoundedFrom10(t);
    } else if t < 14 {
      RoundedFrom12(t);
    } else if t < 16 {
      RoundedFrom14(t);
    } else if t < 18 {
      RoundedFrom16(t);
    } else if t < 20 {
      RoundedFrom18(t);
    } else if t < 22 {
      RoundedFrom20(t);
    } else if t < 24 {
      RoundedFrom22(t);
    } else if t < 26 {
      RoundedFrom24(t);
    } else if t < 28 {
      RoundedFrom26(t);
    } else if t < 30 {
      RoundedFrom28(t);
    } else if t < 32 {
      RoundedFrom30(t);
    } else if t < 34 {
      RoundedFrom32(t);
    } else if t < 36 {
      RoundedFrom34(t);
    } else if t < 38 {
      RoundedFrom36(t);
    } else if t < 40 {
      RoundedFrom38(t);
    } else if t < 42 {
      RoundedFrom40(t);
    } else if t < 44 {
      RoundedFrom42(t);
    } else if t < 46 {
      RoundedFrom44(t);
    } else if t < 48 {
      RoundedFrom46(t);
    } else if t < 50 {
      RoundedFrom48(t);
    } else if t < 52 {
      RoundedFrom50(t);
    } else if t < 54 {
      RoundedFrom52(t);
    } else if t < 56 {
      RoundedFrom54(t);
    } else if t < 58 {
      RoundedFrom56(t);
    } else if t < 60 {
      RoundedFrom58(t);
    } else if t < 62 {
      RoundedFrom60(t);
    } else if t < 64 {
      RoundedFrom62(t);
    }
  }

  lemma TablesAreRight()
    ensures IsSchedule(FIPS, AbcBlock(), Word) && AreRounds(FIPS, Word, State)
  {
    forall t: nat | t < 16
      ensures Loaded(FIPS, AbcBlock(), Word, t)
    {
      AllLoaded(t);
    }
    forall t: nat | 16 <= t < 64
      ensures Extended(FIPS, Word, t)
    {
      AllExtended(t);
    }
    forall t: nat | t < 64
      ensures Rounded(FIPS, Word, State, t)
    {
      AllRounded(t);
    }
  }

  lemma AbcAdded()
    ensures State(0) == INITIAL
    ensures Emit(Add(FIPS, State(0), State(64)))
         == [0xba, 0x78, 0x16, 0xbf, 0x8f, 0x01, 0xcf, 0xea, 0x41, 0x41, 0x40, 0xde, 0x5d, 0xae, 0x22, 0x23,
             0xb0, 0x03, 0x61, 0xa3, 0x96, 0x17, 0x7a, 0x9c, 0xb4, 0x10, 0xff, 0x61, 0xf2, 0x00, 0x15, 0xad]
  {
    FirstAndLast();
    Summed();
    Emitted();
  }

  lemma FirstAndLast()
    ensures State(0) == INITIAL
    ensures State(64) == Vars(0x506e3058, 0xd39a2165, 0x04d24d6c, 0xb85e2ce9, 0x5ef50f24, 0xfb121210, 0x948d25b6, 0x961f4894)
  {}

  lemma Summed()
    ensures Add(FIPS, INITIAL, Vars(0x506e3058, 0xd39a2165, 0x04d24d6c, 0xb85e2ce9, 0x5ef50f24, 0xfb121210, 0x948d25b6, 0x961f4894))
         == Vars(0xba7816bf, 0x8f01cfea, 0x414140de, 0x5dae2223, 0xb00361a3, 0x96177a9c, 0xb410ff61, 0xf20015ad)
  {}

  lemma Emitted()
    ensures Emit(Vars(0xba7816bf, 0x8f01cfea, 0x414140de, 0x5dae2223, 0xb00361a3, 0x96177a9c, 0xb410ff61, 0xf20015ad))
         == [0xba, 0x78, 0x16, 0xbf, 0x8f, 0x01, 0xcf, 0xea, 0x41, 0x41, 0x40, 0xde, 0x5d, 0xae, 0x22, 0x23,
             0xb0, 0x03, 0x61, 0xa3, 0x96, 0x17, 0x7a, 0x9c, 0xb4, 0x10, 0xff, 0x61, 0xf2, 0x00, 0x15, 0xad]
  {}

  lemma AbcPadded(m: seq<bv8>)
    requires m == [0x61, 0x62, 0x63]
    ensures m + Padding(|m|) == AbcBlock()
  {
    LengthOf24(24);
    assert ZeroCount(3) == 52 && BitLength(3) == 24;
  }

  lemma LengthOf24(n: nat)
    requires n == 24
    ensures BigEndian(n, 8) == Zeros(7) + [0x18]
  {
    NoDigits(7);
    assert n / 0x100 == 0 && n % 0x100 == 24;
    assert Byte(24) == 0x18 by {
      OrdInjective(Byte(24), 0x18);
    }
  }

  lemma {:induction false} NoDigits(k: nat)
    ensures BigEndian(0, k) == Zeros(k)
  {
    if k > 0 {
      NoDigits(k - 1);
      assert Byte(0) == 0 by {
        OrdInjective(Byte(0), 0);
      }
    }
  }

  /** The digest of "abc". */
  lemma DigestOfAbc()
    ensures Sha256([0x61, 0x62, 0x63])
         == [0xba, 0x78, 0x16, 0xbf, 0x8f, 0x01, 0xcf, 0xea, 0x41, 0x41, 0x40, 0xde, 0x5d, 0xae, 0x22, 0x23,
             0xb0, 0x03, 0x61, 0xa3, 0x96, 0x17, 0x7a, 0x9c, 0xb4, 0x10, 0xff, 0x61, 0xf2, 0x00, 0x15, 0xad]
  {
    AbcPadded([0x61, 0x62, 0x63]);
    OneBlock(SHA256, [0x61, 0x62, 0x63], AbcBlock());
    TablesAreRight();
    CompressIs(FIPS, AbcBlock(), Word, State);
    AbcAdded();
  }
}
