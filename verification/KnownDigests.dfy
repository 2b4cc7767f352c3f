/** The digests of two messages from FIPS 180-2, appendix B. */
module KnownDigests {
  import opened Bytes
  import opened Words
  import opened Sha256Spec
  import opened Traces

  const ABC_HASH := Vars(0xba7816bf, 0x8f01cfea, 0x414140de, 0x5dae2223, 0xb00361a3, 0x96177a9c, 0xb410ff61, 0xf20015ad)

  const LONG_HASH :=
    Vars(0x248d6a61, 0xd20638b8, 0xe5c02693, 0x0c3e6039, 0xa33ce459, 0x64ff2167, 0xf6ecedd4, 0x19db06c1)

  // ----- one block: `abc` -----

  const ABC_W0: seq<Word> := [
    0x61626380, 0x00000000, 0x00000000, 0x00000000, 0x00000000, 0x00000000, 0x00000000, 0x00000000]
  const ABC_W1: seq<Word> := [
    0x00000000, 0x00000000, 0x00000000, 0x00000000, 0x00000000, 0x00000000, 0x00000000, 0x00000018]
  const ABC_W2: seq<Word> := [
    0x61626380, 0x000f0000, 0x7da86405, 0x600003c6, 0x3e9d7b78, 0x0183fc00, 0x12dcbfdb, 0xe2e2c38e]
  const ABC_W3: seq<Word> := [
    0xc8215c1a, 0xb73679a2, 0xe5bc3909, 0x32663c5b, 0x9d209d67, 0xec8726cb, 0x702138a4, 0xd3b7973b]
  const ABC_W4: seq<Word> := [
    0x93f5997f, 0x3b68ba73, 0xaff4ffc1, 0xf10a5c62, 0x0a8b3996, 0x72af830a, 0x9409e33e, 0x24641522]
  const ABC_W5: seq<Word> := [
    0x9f47bf94, 0xf0a64f5a, 0x3e246a79, 0x27333ba3, 0x0c4763f2, 0x840abf27, 0x7a290d5d, 0x065c43da]
  const ABC_W6: seq<Word> := [
    0xfb3e89cb, 0xcc7617db, 0xb9e66c34, 0xa9993667, 0x84badedd, 0xc21462bc, 0x1487472c, 0xb20f7a99]
  const ABC_W7: seq<Word> := [
    0xef57b9cd, 0xebe6b238, 0x9fe3095e, 0x78bc8d4b, 0xa43fcf15, 0x668b2ff8, 0xeeaba2cc, 0x12b1edeb]

  const ABC_S0 := Vars(0x6a09e667, 0xbb67ae85, 0x3c6ef372, 0xa54ff53a, 0x510e527f, 0x9b05688c, 0x1f83d9ab, 0x5be0cd19)
  const ABC_S1 := Vars(0xd550f666, 0xc8c347a7, 0x5a6ad9ad, 0x5d6aebcd, 0x24e00850, 0xf92939eb, 0x78ce7989, 0xfa2a4622)
  const ABC_S2 := Vars(0x85a07b5f, 0xe5030380, 0x2b4209f5, 0x04409a6a, 0x0c657a79, 0x9b27a401, 0x714260ad, 0x43ada245)
  const ABC_S3 := Vars(0xf71fc5a9, 0x4798a3f4, 0x8c87346b, 0x8e04ecb9, 0x816fd6e9, 0x436b23e8, 0x1cc92596, 0x32ca2d8c)
  const ABC_S4 := Vars(0xb0fa238e, 0xc0645fde, 0xd932eb16, 0x87912990, 0x07590dcd, 0x0b92f20c, 0x745a48de, 0x1e578218)
  const ABC_S5 := Vars(0xe1f20c33, 0xfe777bbf, 0xc2fbd9d1, 0x21da9a9b, 0xb0638179, 0xcc899961, 0x846ee454, 0x8034229c)
  const ABC_S6 := Vars(0xc5d53d8d, 0xa7a3623f, 0xc2606d6d, 0x9dc68b63, 0xaa47c347, 0x49f5114a, 0xe1257970, 0x8ada8930)
  const ABC_S7 := Vars(0x77d37528, 0xb62ec4bc, 0xcde8037d, 0x1c2c2838, 0xedffbff8, 0xc74c6516, 0x14383d8e, 0x2823ef91)
  const ABC_S8 := Vars(0x73b33bf5, 0xea992a22, 0xa0060b30, 0x363482c9, 0xba591112, 0x0109ab3a, 0xade79437, 0x6112a3b7)
  const ABC_S9 := Vars(0x65a0cfe4, 0xa9a7738c, 0xfe604df5, 0x98e12507, 0xf4b002d6, 0x085f3833, 0x59249dd3, 0x9cd9f5f6)
  const ABC_S10 := Vars(0x79ea687a, 0x6dc57a8a, 0x34df1604, 0x41a65cb1, 0x1efbc0a0, 0xf0781bc8, 0xa507a53d, 0x0772a26b)
  const ABC_S11 := Vars(0x9d4baf93, 0x17aa0dfe, 0xdf46652f, 0xd6670766, 0xfda24c2e, 0xdecd4715, 0x838b2711, 0x26352d63)
  const ABC_S12 := Vars(0x4172328d, 0xa14c14b0, 0x72ab4b91, 0x26628815, 0xfecf0bc6, 0xd57b94a9, 0xb7755da1, 0xa80f11f0)
  const ABC_S13 := Vars(0x886e7a22, 0x7a0508a1, 0xf11bfaa8, 0x05757ceb, 0x49231c1e, 0x52f1ccf7, 0x6e5c390c, 0xbd714038)
  const ABC_S14 := Vars(0x38cc9913, 0x3ec45cdb, 0xf5702fdb, 0x101fd28f, 0x54cb266b, 0xe50e1b4f, 0x9f4787c3, 0x529e7d00)
  const ABC_S15 := Vars(0xb6ae8fff, 0xffb70472, 0xc062d46f, 0xfcd1887b, 0xb21bad3d, 0x6d83bfc6, 0x7e44008e, 0x9b5e906c)
  const ABC_S16 := Vars(0x506e3058, 0xd39a2165, 0x04d24d6c, 0xb85e2ce9, 0x5ef50f24, 0xfb121210, 0x948d25b6, 0x961f4894)

  const ABC_BLOCK: seq<Word> := ABC_W0 + ABC_W1

  lemma AbcWords2()
    ensures FirstFour(ABC_W0, ABC_W1, ABC_W2) && LastFour(ABC_W0, ABC_W1, ABC_W2)
    ensures FirstFour(ABC_W1, ABC_W2, ABC_W3) && LastFour(ABC_W1, ABC_W2, ABC_W3)
  {
  }

  lemma AbcSchedule2()
    ensures Scheduled(ABC_BLOCK, 16, ABC_W2) && Scheduled(ABC_BLOCK, 24, ABC_W3)
  {
    BlockWords(ABC_BLOCK, ABC_W0, ABC_W1);
    AbcWords2();
    RowFollows(ABC_BLOCK, 0, ABC_W0, 8, ABC_W1, 16, ABC_W2);
    RowFollows(ABC_BLOCK, 8, ABC_W1, 16, ABC_W2, 24, ABC_W3);
  }

  lemma AbcWords4()
    ensures FirstFour(ABC_W2, ABC_W3, ABC_W4) && LastFour(ABC_W2, ABC_W3, ABC_W4)
    ensures FirstFour(ABC_W3, ABC_W4, ABC_W5) && LastFour(ABC_W3, ABC_W4, ABC_W5)
  {
  }

  lemma AbcSchedule4()
    ensures Scheduled(ABC_BLOCK, 32, ABC_W4) && Scheduled(ABC_BLOCK, 40, ABC_W5)
  {
    AbcSchedule2();
    AbcWords4();
    RowFollows(ABC_BLOCK, 16, ABC_W2, 24, ABC_W3, 32, ABC_W4);
    RowFollows(ABC_BLOCK, 24, ABC_W3, 32, ABC_W4, 40, ABC_W5);
  }

  lemma AbcWords6()
    ensures FirstFour(ABC_W4, ABC_W5, ABC_W6) && LastFour(ABC_W4, ABC_W5, ABC_W6)
    ensures FirstFour(ABC_W5, ABC_W6, ABC_W7) && LastFour(ABC_W5, ABC_W6, ABC_W7)
  {
  }

  lemma AbcSchedule6()
    ensures Scheduled(ABC_BLOCK, 48, ABC_W6) && Scheduled(ABC_BLOCK, 56, ABC_W7)
  {
    AbcSchedule4();
    AbcWords6();
    RowFollows(ABC_BLOCK, 32, ABC_W4, 40, ABC_W5, 48, ABC_W6);
    RowFollows(ABC_BLOCK, 40, ABC_W5, 48, ABC_W6, 56, ABC_W7);
  }

  lemma AbcRow0(round: Turn)
    requires IsRound(round)
    ensures Run(round, ABC_BLOCK, 0, K0, ABC_W0, ABC_S0, ABC_S2)
  {
    BlockWords(ABC_BLOCK, ABC_W0, ABC_W1);
    EightRounds(round, ABC_S0, ABC_S1, ABC_S2, K0, ABC_W0);
  }

  lemma AbcRow1(round: Turn)
    requires IsRound(round)
    ensures Run(round, ABC_BLOCK, 8, K1, ABC_W1, ABC_S2, ABC_S4)
  {
    BlockWords(ABC_BLOCK, ABC_W0, ABC_W1);
    EightRounds(round, ABC_S2, ABC_S3, ABC_S4, K1, ABC_W1);
  }

  lemma AbcRow2(round: Turn)
    requires IsRound(round)
    ensures Run(round, ABC_BLOCK, 16, K2, ABC_W2, ABC_S4, ABC_S6)
  {
    AbcSchedule2();
    EightRounds(round, ABC_S4, ABC_S5, ABC_S6, K2, ABC_W2);
  }

  lemma AbcRow3(round: Turn)
    requires IsRound(round)
    ensures Run(round, ABC_BLOCK, 24, K3, ABC_W3, ABC_S6, ABC_S8)
  {
    AbcSchedule2();
    EightRounds(round, ABC_S6, ABC_S7, ABC_S8, K3, ABC_W3);
  }

  lemma AbcRow4(round: Turn)
    requires IsRound(round)
    ensures Run(round, ABC_BLOCK, 32, K4, ABC_W4, ABC_S8, ABC_S10)
  {
    AbcSchedule4();
    EightRounds(round, ABC_S8, ABC_S9, ABC_S10, K4, ABC_W4);
  }

  lemma AbcRow5(round: Turn)
    requires IsRound(round)
    ensures Run(round, ABC_BLOCK, 40, K5, ABC_W5, ABC_S10, ABC_S12)
  {
    AbcSchedule4();
    EightRounds(round, ABC_S10, ABC_S11, ABC_S12, K5, ABC_W5);
  }

  lemma AbcRow6(round: Turn)
    requires IsRound(round)
    ensures Run(round, ABC_BLOCK, 48, K6, ABC_W6, ABC_S12, ABC_S14)
  {
    AbcSchedule6();
    EightRounds(round, ABC_S12, ABC_S13, ABC_S14, K6, ABC_W6);
  }

  lemma AbcRow7(round: Turn)
    requires IsRound(round)
    ensures Run(round, ABC_BLOCK, 56, K7, ABC_W7, ABC_S14, ABC_S16)
  {
    AbcSchedule6();
    EightRounds(round, ABC_S14, ABC_S15, ABC_S16, K7, ABC_W7);
  }

  lemma AbcFirstHalf(round: Turn)
    requires IsRound(round)
    ensures Run(round, ABC_BLOCK, 0, (K0 + K1) + (K2 + K3), (ABC_W0 + ABC_W1) + (ABC_W2 + ABC_W3), ABC_S0, ABC_S8)
  {
    AbcRow0(round);
    AbcRow1(round);
    AbcRow2(round);
    AbcRow3(round);
    FourRows(round, ABC_BLOCK, 0, K0, ABC_W0, ABC_S0, 8, K1, ABC_W1, ABC_S2,
             16, K2, ABC_W2, ABC_S4, 24, K3, ABC_W3, ABC_S6, ABC_S8);
  }

  lemma AbcSecondHalf(round: Turn)
    requires IsRound(round)
    ensures Run(round, ABC_BLOCK, 32, (K4 + K5) + (K6 + K7), (ABC_W4 + ABC_W5) + (ABC_W6 + ABC_W7), ABC_S8, ABC_S16)
  {
    AbcRow4(round);
    AbcRow5(round);
    AbcRow6(round);
    AbcRow7(round);
    FourRows(round, ABC_BLOCK, 32, K4, ABC_W4, ABC_S8, 40, K5, ABC_W5, ABC_S10,
             48, K6, ABC_W6, ABC_S12, 56, K7, ABC_W7, ABC_S14, ABC_S16);
  }

  lemma AbcRounds(round: Turn)
    requires IsRound(round)
    ensures Rounds(ABC_S0, ABC_BLOCK, |SHA256_K|) == ABC_S16
  {
    AbcFirstHalf(round);
    AbcSecondHalf(round);
    TwoHalves(round, ABC_BLOCK, (ABC_W0 + ABC_W1) + (ABC_W2 + ABC_W3), ABC_S0, ABC_S8,
              (ABC_W4 + ABC_W5) + (ABC_W6 + ABC_W7), ABC_S16);
  }

  lemma AbcRowBytes0()
    ensures DigestBytes(ABC_W0) == [
      0x61, 0x62, 0x63, 0x80, 0x00, 0x00, 0x00, 0x00, 0x00, 0x00, 0x00, 0x00, 0x00, 0x00, 0x00, 0x00,
      0x00, 0x00, 0x00, 0x00, 0x00, 0x00, 0x00, 0x00, 0x00, 0x00, 0x00, 0x00, 0x00, 0x00, 0x00, 0x00]
  {
    BytesWritten(ABC_W0);
    WrittenEight(WordBytes, ABC_W0);
  }

  lemma AbcRowBytes1()
    ensures DigestBytes(ABC_W1) == [
      0x00, 0x00, 0x00, 0x00, 0x00, 0x00, 0x00, 0x00, 0x00, 0x00, 0x00, 0x00, 0x00, 0x00, 0x00, 0x00,
      0x00, 0x00, 0x00, 0x00, 0x00, 0x00, 0x00, 0x00, 0x00, 0x00, 0x00, 0x00, 0x00, 0x00, 0x00, 0x18]
  {
    BytesWritten(ABC_W1);
    WrittenEight(WordBytes, ABC_W1);
  }

  lemma AbcSum()
    ensures Sum(ABC_S0, ABC_S16) == ABC_HASH
  {
  }

  lemma AbcHashBytes()
    ensures DigestBytes(ABC_HASH.Words()) == [
      0xba, 0x78, 0x16, 0xbf, 0x8f, 0x01, 0xcf, 0xea, 0x41, 0x41, 0x40, 0xde, 0x5d, 0xae, 0x22, 0x23,
      0xb0, 0x03, 0x61, 0xa3, 0x96, 0x17, 0x7a, 0x9c, 0xb4, 0x10, 0xff, 0x61, 0xf2, 0x00, 0x15, 0xad]
  {
    BytesWritten(ABC_HASH.Words());
    WrittenEight(WordBytes, ABC_HASH.Words());
  }

  // ----- two blocks -----

  const L1_W0: seq<Word> := [
    0x61626364, 0x62636465, 0x63646566, 0x64656667, 0x65666768, 0x66676869, 0x6768696a, 0x68696a6b]
  const L1_W1: seq<Word> := [
    0x696a6b6c, 0x6a6b6c6d, 0x6b6c6d6e, 0x6c6d6e6f, 0x6d6e6f70, 0x6e6f7071, 0x80000000, 0x00000000]
  const L1_W2: seq<Word> := [
    0xeb8012ad, 0xa7c3ae92, 0x76e93ba2, 0xba42e743, 0x92a92204, 0xd847e75e, 0x9e160036, 0xb280a7cb]
  const L1_W3: seq<Word> := [
    0xddeb1516, 0xf36586f4, 0x969cd048, 0xe959d99d, 0x6accc0ec, 0xf54cb098, 0x2af1b2da, 0xee59c4c9]
  const L1_W4: seq<Word> := [
    0xa835e16a, 0x1dff4429, 0xd6e15959, 0xc397cd6e, 0x6f1801ca, 0x21574205, 0x35ff7a84, 0x9743ee78]
  const L1_W5: seq<Word> := [
    0xe44183e7, 0x0d09f00d, 0x9c89af54, 0x042d5bef, 0x71f134d0, 0x0f94f463, 0x7e49dc63, 0x6f65c997]
  const L1_W6: seq<Word> := [
    0x0b706583, 0x179312ca, 0x503054e9, 0xba125c39, 0x7e9392c9, 0xd5cbaa1e, 0x78e0585d, 0xf6e7611c]
  const L1_W7: seq<Word> := [
    0x8ac830ce, 0x8b47a303, 0xfd6e627f, 0x8c6e2c6a, 0x4001adf1, 0x1a3dd097, 0xa9df6f62, 0x6aa60a39]

  const L1_S0 := Vars(0x6a09e667, 0xbb67ae85, 0x3c6ef372, 0xa54ff53a, 0x510e527f, 0x9b05688c, 0x1f83d9ab, 0x5be0cd19)
  const L1_S1 := Vars(0x4a8d64d5, 0x97651825, 0x2f2d5fcf, 0x5d6aebb1, 0x6494841b, 0x62d5c49e, 0x4eb1cfce, 0xfa2a4606)
  const L1_S2 := Vars(0xd237e6db, 0x485835b7, 0x55c8ef48, 0xf921c212, 0xa401d211, 0x39a5b2ca, 0x7ff91c94, 0x05c4f88a)
  const L1_S3 := Vars(0x1762215c, 0xb8e2b4cb, 0x3a474b2b, 0x359f2bce, 0xee1c97a8, 0x443ed29e, 0x9037b3b8, 0xc09ffec4)
  const L1_S4 := Vars(0xc3486194, 0xdd16cbb3, 0xd68e6457, 0x101a4861, 0x1496a54f, 0x9162aded, 0x9243f8af, 0x839a0fc9)
  const L1_S5 := Vars(0x2139187b, 0xf402f058, 0x046a193e, 0xb9dcacb1, 0x7c304206, 0x6f433549, 0x885370b6, 0xd4f64250)
  const L1_S6 := Vars(0x59fce6b9, 0xae2e2d4f, 0x1b2b66b8, 0xd70ac17d, 0xa2c7d51d, 0xf074fc95, 0xd560b028, 0x7cc6b262)
  const L1_S7 := Vars(0x73f858af, 0x128661da, 0x573221da, 0x4a885065, 0xe77c797f, 0x1162d575, 0x36e74eb4, 0x763597fb)
  const L1_S8 := Vars(0x5581ab07, 0xeb43f3ed, 0xdf7151a0, 0x74bcf468, 0xdf980085, 0x0635d880, 0x7629c961, 0x72abaecd)
  const L1_S9 := Vars(0x0786dce8, 0x1df8e885, 0x9ce5a62f, 0x9fc905c8, 0xde2a21d1, 0x2a9e048e, 0x6ef3b6bd, 0xa94d2af1)
  const L1_S10 := Vars(0x7e4d30b8, 0x91ac9d5d, 0xa985b4be, 0x2c55d3a6, 0x9f5b9b6d, 0x68d8d590, 0xf72bf353, 0xb067c1af)
  const L1_S11 := Vars(0x167361de, 0xb62c7013, 0x508a16ab, 0x7e056794, 0x41dd3844, 0x80a92a00, 0x45459d97, 0x423b26c0)
  const L1_S12 := Vars(0x13d82741, 0x165be9cd, 0x18f0d19d, 0xde71e2f2, 0xa7802a4d, 0xa483f080, 0x6b88472c, 0xff61c636)
  const L1_S13 := Vars(0x81c1cde0, 0x758ca97a, 0x543c99a1, 0x017b9d99, 0x5c47eb7b, 0x100cf2ea, 0x16f134b6, 0xaeb10b60)
  const L1_S14 := Vars(0x9e57c4a0, 0xf907b313, 0x1d6de87a, 0xb8d55619, 0xeec13548, 0x61a41711, 0x3443bed4, 0x1c806a61)
  const L1_S15 := Vars(0xe18f259a, 0x921fccb6, 0x7c015a2c, 0x71629856, 0x51e15869, 0x43d8a034, 0xcb9d3dd0, 0x2f6c8c4e)
  const L1_S16 := Vars(0x1bdc6f6f, 0x86126910, 0xf6f443f8, 0xbcfce922, 0x25d2430a, 0x2fc08f85, 0xacc75916, 0x962d8621)

  const L1_BLOCK: seq<Word> := L1_W0 + L1_W1

  lemma LongOneWords2()
    ensures FirstFour(L1_W0, L1_W1, L1_W2) && LastFour(L1_W0, L1_W1, L1_W2)
    ensures FirstFour(L1_W1, L1_W2, L1_W3) && LastFour(L1_W1, L1_W2, L1_W3)
  {
  }

  lemma LongOneSchedule2()
    ensures Scheduled(L1_BLOCK, 16, L1_W2) && Scheduled(L1_BLOCK, 24, L1_W3)
  {
    BlockWords(L1_BLOCK, L1_W0, L1_W1);
    LongOneWords2();
    RowFollows(L1_BLOCK, 0, L1_W0, 8, L1_W1, 16, L1_W2);
    RowFollows(L1_BLOCK, 8, L1_W1, 16, L1_W2, 24, L1_W3);
  }

  lemma LongOneWords4()
    ensures FirstFour(L1_W2, L1_W3, L1_W4) && LastFour(L1_W2, L1_W3, L1_W4)
    ensures FirstFour(L1_W3, L1_W4, L1_W5) && LastFour(L1_W3, L1_W4, L1_W5)
  {
  }

  lemma LongOneSchedule4()
    ensures Scheduled(L1_BLOCK, 32, L1_W4) && Scheduled(L1_BLOCK, 40, L1_W5)
  {
    LongOneSchedule2();
    LongOneWords4();
    RowFollows(L1_BLOCK, 16, L1_W2, 24, L1_W3, 32, L1_W4);
    RowFollows(L1_BLOCK, 24, L1_W3, 32, L1_W4, 40, L1_W5);
  }

  lemma LongOneWords6()
    ensures FirstFour(L1_W4, L1_W5, L1_W6) && LastFour(L1_W4, L1_W5, L1_W6)
    ensures FirstFour(L1_W5, L1_W6, L1_W7) && LastFour(L1_W5, L1_W6, L1_W7)
  {
  }

  lemma LongOneSchedule6()
    ensures Scheduled(L1_BLOCK, 48, L1_W6) && Scheduled(L1_BLOCK, 56, L1_W7)
  {
    LongOneSchedule4();
    LongOneWords6();
    RowFollows(L1_BLOCK, 32, L1_W4, 40, L1_W5, 48, L1_W6);
    RowFollows(L1_BLOCK, 40, L1_W5, 48, L1_W6, 56, L1_W7);
  }

  lemma LongOneRow0(round: Turn)
    requires IsRound(round)
    ensures Run(round, L1_BLOCK, 0, K0, L1_W0, L1_S0, L1_S2)
  {
    BlockWords(L1_BLOCK, L1_W0, L1_W1);
    EightRounds(round, L1_S0, L1_S1, L1_S2, K0, L1_W0);
  }

  lemma LongOneRow1(round: Turn)
    requires IsRound(round)
    ensures Run(round, L1_BLOCK, 8, K1, L1_W1, L1_S2, L1_S4)
  {
    BlockWords(L1_BLOCK, L1_W0, L1_W1);
    EightRounds(round, L1_S2, L1_S3, L1_S4, K1, L1_W1);
  }

  lemma LongOneRow2(round: Turn)
    requires IsRound(round)
    ensures Run(round, L1_BLOCK, 16, K2, L1_W2, L1_S4, L1_S6)
  {
    LongOneSchedule2();
    EightRounds(round, L1_S4, L1_S5, L1_S6, K2, L1_W2);
  }

  lemma LongOneRow3(round: Turn)
    requires IsRound(round)
    ensures Run(round, L1_BLOCK, 24, K3, L1_W3, L1_S6, L1_S8)
  {
    LongOneSchedule2();
    EightRounds(round, L1_S6, L1_S7, L1_S8, K3, L1_W3);
  }

  lemma LongOneRow4(round: Turn)
    requires IsRound(round)
    ensures Run(round, L1_BLOCK, 32, K4, L1_W4, L1_S8, L1_S10)
  {
    LongOneSchedule4();
    EightRounds(round, L1_S8, L1_S9, L1_S10, K4, L1_W4);
  }

  lemma LongOneRow5(round: Turn)
    requires IsRound(round)
    ensures Run(round, L1_BLOCK, 40, K5, L1_W5, L1_S10, L1_S12)
  {
    LongOneSchedule4();
    EightRounds(round, L1_S10, L1_S11, L1_S12, K5, L1_W5);
  }

  lemma LongOneRow6(round: Turn)
    requires IsRound(round)
    ensures Run(round, L1_BLOCK, 48, K6, L1_W6, L1_S12, L1_S14)
  {
    LongOneSchedule6();
    EightRounds(round, L1_S12, L1_S13, L1_S14, K6, L1_W6);
  }

  lemma LongOneRow7(round: Turn)
    requires IsRound(round)
    ensures Run(round, L1_BLOCK, 56, K7, L1_W7, L1_S14, L1_S16)
  {
    LongOneSchedule6();
    EightRounds(round, L1_S14, L1_S15, L1_S16, K7, L1_W7);
  }

  lemma LongOneFirstHalf(round: Turn)
    requires IsRound(round)
    ensures Run(round, L1_BLOCK, 0, (K0 + K1) + (K2 + K3), (L1_W0 + L1_W1) + (L1_W2 + L1_W3), L1_S0, L1_S8)
  {
    LongOneRow0(round);
    LongOneRow1(round);
    LongOneRow2(round);
    LongOneRow3(round);
    FourRows(round, L1_BLOCK, 0, K0, L1_W0, L1_S0, 8, K1, L1_W1, L1_S2,
             16, K2, L1_W2, L1_S4, 24, K3, L1_W3, L1_S6, L1_S8);
  }

  lemma LongOneSecondHalf(round: Turn)
    requires IsRound(round)
    ensures Run(round, L1_BLOCK, 32, (K4 + K5) + (K6 + K7), (L1_W4 + L1_W5) + (L1_W6 + L1_W7), L1_S8, L1_S16)
  {
    LongOneRow4(round);
    LongOneRow5(round);
    LongOneRow6(round);
    LongOneRow7(round);
    FourRows(round, L1_BLOCK, 32, K4, L1_W4, L1_S8, 40, K5, L1_W5, L1_S10,
             48, K6, L1_W6, L1_S12, 56, K7, L1_W7, L1_S14, L1_S16);
  }

  lemma LongOneRounds(round: Turn)
    requires IsRound(round)
    ensures Rounds(L1_S0, L1_BLOCK, |SHA256_K|) == L1_S16
  {
    LongOneFirstHalf(round);
    LongOneSecondHalf(round);
    TwoHalves(round, L1_BLOCK, (L1_W0 + L1_W1) + (L1_W2 + L1_W3), L1_S0, L1_S8,
              (L1_W4 + L1_W5) + (L1_W6 + L1_W7), L1_S16);
  }

  lemma LongOneRowBytes0()
    ensures DigestBytes(L1_W0) == [
      0x61, 0x62, 0x63, 0x64, 0x62, 0x63, 0x64, 0x65, 0x63, 0x64, 0x65, 0x66, 0x64, 0x65, 0x66, 0x67,
      0x65, 0x66, 0x67, 0x68, 0x66, 0x67, 0x68, 0x69, 0x67, 0x68, 0x69, 0x6a, 0x68, 0x69, 0x6a, 0x6b]
  {
    BytesWritten(L1_W0);
    WrittenEight(WordBytes, L1_W0);
  }

  lemma LongOneRowBytes1()
    ensures DigestBytes(L1_W1) == [
      0x69, 0x6a, 0x6b, 0x6c, 0x6a, 0x6b, 0x6c, 0x6d, 0x6b, 0x6c, 0x6d, 0x6e, 0x6c, 0x6d, 0x6e, 0x6f,
      0x6d, 0x6e, 0x6f, 0x70, 0x6e, 0x6f, 0x70, 0x71, 0x80, 0x00, 0x00, 0x00, 0x00, 0x00, 0x00, 0x00]
  {
    BytesWritten(L1_W1);
    WrittenEight(WordBytes, L1_W1);
  }

  lemma LongOneSum()
    ensures Sum(L1_S0, L1_S16) == L2_S0
  {
  }

  const L2_W0: seq<Word> := [
    0x00000000, 0x00000000, 0x00000000, 0x00000000, 0x00000000, 0x00000000, 0x00000000, 0x00000000]
  const L2_W1: seq<Word> := [
    0x00000000, 0x00000000, 0x00000000, 0x00000000, 0x00000000, 0x00000000, 0x00000000, 0x000001c0]
  const L2_W2: seq<Word> := [
    0x00000000, 0x00d80000, 0x00000000, 0x00003677, 0x00000000, 0x1df5600d, 0x000001c0, 0x1c00501c]
  const L2_W3: seq<Word> := [
    0x01b00000, 0x220a8d94, 0x0000a365, 0x177017e7, 0x63d38035, 0x090ab713, 0x4c7539ca, 0x0f19a8c9]
  const L2_W4: seq<Word> := [
    0x5df4b0c4, 0xe257036a, 0xc97bb6f1, 0xc5b46f4d, 0xf8253c4e, 0xa558d189, 0x78696285, 0xed07117f]
  const L2_W5: seq<Word> := [
    0x107358f6, 0x390ae496, 0x565010a2, 0xc51d7d44, 0x9e74c972, 0x6614b561, 0x30fc129d, 0x9ac684a8]
  const L2_W6: seq<Word> := [
    0x2b658dbd, 0xe290f793, 0x9eebb24c, 0x9713b5de, 0x41061ab7, 0xe022e23b, 0x0772079e, 0x7de22d9c]
  const L2_W7: seq<Word> := [
    0xc8b83778, 0x75a79849, 0xd93dbddb, 0x0a036c9d, 0xcb4f6ac6, 0x823f97e2, 0xea2f2a7a, 0xb9018b52]

  const L2_S0 := Vars(0x85e655d6, 0x417a1795, 0x3363376a, 0x624cde5c, 0x76e09589, 0xcac5f811, 0xcc4b32c1, 0xf20e533a)
  const L2_S1 := Vars(0xf268faa9, 0xfd1eebdc, 0x7c3c0f86, 0x7c20c838, 0xe20362ef, 0xaf71b9ea, 0x8c51be64, 0x4670ae6e)
  const L2_S2 := Vars(0xbf9a93a0, 0x89bba3f1, 0x3eeb6c06, 0x185a5d79, 0x059abdd1, 0x0a34df03, 0xfe20cda6, 0x8dff3001)
  const L2_S3 := Vars(0x5eb4ec40, 0x5b35025b, 0x2d964e86, 0x2c096744, 0xe11b4548, 0x10e77723, 0xaa27ed82, 0xabfa465b)
  const L2_S4 := Vars(0x16a8cc79, 0x0cea5cbc, 0xd74080fa, 0x35ee996d, 0x0fcb1f6f, 0x60356548, 0x68aa893f, 0x5c24e2a2)
  const L2_S5 := Vars(0x76f1a2bc, 0xdcff40fd, 0x23dcb6c2, 0xf16f634e, 0x0dc84bb1, 0x69bf7b95, 0xca9182d3, 0x8b21cdc1)
  const L2_S6 := Vars(0xa4195b91, 0xf13ae55b, 0xd44dc81a, 0x20aad899, 0xeddbd6ed, 0x966aa287, 0x5bace62d, 0xcc4769f2)
  const L2_S7 := Vars(0x0d936bab, 0x9450fbbc, 0xaa6cb982, 0x4984fa79, 0x6e495d4b, 0x09166dda, 0x0b5eeea4, 0xa530d939)
  const L2_S8 := Vars(0xb0eab1c5, 0x02ef3a5f, 0x1cfa5eb0, 0xd958b529, 0xf6d93952, 0x5da10665, 0x6c49db9f, 0xc2fa99b1)
  const L2_S9 := Vars(0xecde4e0d, 0x9907f1b6, 0x4bd1df96, 0x0bfba73c, 0x5dc119e6, 0x66c3043d, 0x905e44ac, 0x8b99e3a9)
  const L2_S10 := Vars(0x221b8a5a, 0xadca7a96, 0xd949682b, 0x2f11c939, 0x0b82c5eb, 0xc6cce4ff, 0x32d99008, 0xfed4ce1d)
  const L2_S11 := Vars(0xf2ad6322, 0x8300fca2, 0x2c794876, 0x12d97845, 0xcc48c7f3, 0xe0e3457c, 0xff6759ba, 0xe4213ca2)
  const L2_S12 := Vars(0xd7354d5b, 0x0b3303a7, 0x104a7db4, 0x0f154e11, 0xaad55b6b, 0xbbe1c39a, 0x5348e8f6, 0x6f9517cb)
  const L2_S13 := Vars(0x1a6bcf6a, 0xd8aabcf9, 0x2748e5ec, 0xb736d7a6, 0xff5e99d0, 0x27844711, 0xd4b58576, 0x68f25260)
  const L2_S14 := Vars(0x92952710, 0xd9f0c115, 0xec02560a, 0x4eca6fa0, 0x226806d6, 0x624150c4, 0x7151df8e, 0x989ed071)
  const L2_S15 := Vars(0x1c4cddd9, 0x286fe5f0, 0x4348eb1f, 0x20d4d0e4, 0xf487a853, 0x54076664, 0xc21eddf9, 0x4e515a4d)
  const L2_S16 := Vars(0x9ea7148b, 0x908c2123, 0xb25cef29, 0xa9f181dd, 0x2c5c4ed0, 0x9a392956, 0x2aa1bb13, 0x27ccb387)

  const L2_BLOCK: seq<Word> := L2_W0 + L2_W1

  lemma LongTwoWords2()
    ensures FirstFour(L2_W0, L2_W1, L2_W2) && LastFour(L2_W0, L2_W1, L2_W2)
    ensures FirstFour(L2_W1, L2_W2, L2_W3) && LastFour(L2_W1, L2_W2, L2_W3)
  {
  }

  lemma LongTwoSchedule2()
    ensures Scheduled(L2_BLOCK, 16, L2_W2) && Scheduled(L2_BLOCK, 24, L2_W3)
  {
    BlockWords(L2_BLOCK, L2_W0, L2_W1);
    LongTwoWords2();
    RowFollows(L2_BLOCK, 0, L2_W0, 8, L2_W1, 16, L2_W2);
    RowFollows(L2_BLOCK, 8, L2_W1, 16, L2_W2, 24, L2_W3);
  }

  lemma LongTwoWords4()
    ensures FirstFour(L2_W2, L2_W3, L2_W4) && LastFour(L2_W2, L2_W3, L2_W4)
    ensures FirstFour(L2_W3, L2_W4, L2_W5) && LastFour(L2_W3, L2_W4, L2_W5)
  {
  }

  lemma LongTwoSchedule4()
    ensures Scheduled(L2_BLOCK, 32, L2_W4) && Scheduled(L2_BLOCK, 40, L2_W5)
  {
    LongTwoSchedule2();
    LongTwoWords4();
    RowFollows(L2_BLOCK, 16, L2_W2, 24, L2_W3, 32, L2_W4);
    RowFollows(L2_BLOCK, 24, L2_W3, 32, L2_W4, 40, L2_W5);
  }

  lemma LongTwoWords6()
    ensures FirstFour(L2_W4, L2_W5, L2_W6) && LastFour(L2_W4, L2_W5, L2_W6)
    ensures FirstFour(L2_W5, L2_W6, L2_W7) && LastFour(L2_W5, L2_W6, L2_W7)
  {
  }

  lemma LongTwoSchedule6()
    ensures Scheduled(L2_BLOCK, 48, L2_W6) && Scheduled(L2_BLOCK, 56, L2_W7)
  {
    LongTwoSchedule4();
    LongTwoWords6();
    RowFollows(L2_BLOCK, 32, L2_W4, 40, L2_W5, 48, L2_W6);
    RowFollows(L2_BLOCK, 40, L2_W5, 48, L2_W6, 56, L2_W7);
  }

  lemma LongTwoRow0(round: Turn)
    requires IsRound(round)
    ensures Run(round, L2_BLOCK, 0, K0, L2_W0, L2_S0, L2_S2)
  {
    BlockWords(L2_BLOCK, L2_W0, L2_W1);
    EightRounds(round, L2_S0, L2_S1, L2_S2, K0, L2_W0);
  }

  lemma LongTwoRow1(round: Turn)
    requires IsRound(round)
    ensures Run(round, L2_BLOCK, 8, K1, L2_W1, L2_S2, L2_S4)
  {
    BlockWords(L2_BLOCK, L2_W0, L2_W1);
    EightRounds(round, L2_S2, L2_S3, L2_S4, K1, L2_W1);
  }

  lemma LongTwoRow2(round: Turn)
    requires IsRound(round)
    ensures Run(round, L2_BLOCK, 16, K2, L2_W2, L2_S4, L2_S6)
  {
    LongTwoSchedule2();
    EightRounds(round, L2_S4, L2_S5, L2_S6, K2, L2_W2);
  }

  lemma LongTwoRow3(round: Turn)
    requires IsRound(round)
    ensures Run(round, L2_BLOCK, 24, K3, L2_W3, L2_S6, L2_S8)
  {
    LongTwoSchedule2();
    EightRounds(round, L2_S6, L2_S7, L2_S8, K3, L2_W3);
  }

  lemma LongTwoRow4(round: Turn)
    requires IsRound(round)
    ensures Run(round, L2_BLOCK, 32, K4, L2_W4, L2_S8, L2_S10)
  {
    LongTwoSchedule4();
    EightRounds(round, L2_S8, L2_S9, L2_S10, K4, L2_W4);
  }

  lemma LongTwoRow5(round: Turn)
    requires IsRound(round)
    ensures Run(round, L2_BLOCK, 40, K5, L2_W5, L2_S10, L2_S12)
  {
    LongTwoSchedule4();
    EightRounds(round, L2_S10, L2_S11, L2_S12, K5, L2_W5);
  }

  lemma LongTwoRow6(round: Turn)
    requires IsRound(round)
    ensures Run(round, L2_BLOCK, 48, K6, L2_W6, L2_S12, L2_S14)
  {
    LongTwoSchedule6();
    EightRounds(round, L2_S12, L2_S13, L2_S14, K6, L2_W6);
  }

  lemma LongTwoRow7(round: Turn)
    requires IsRound(round)
    ensures Run(round, L2_BLOCK, 56, K7, L2_W7, L2_S14, L2_S16)
  {
    LongTwoSchedule6();
    EightRounds(round, L2_S14, L2_S15, L2_S16, K7, L2_W7);
  }

  lemma LongTwoFirstHalf(round: Turn)
    requires IsRound(round)
    ensures Run(round, L2_BLOCK, 0, (K0 + K1) + (K2 + K3), (L2_W0 + L2_W1) + (L2_W2 + L2_W3), L2_S0, L2_S8)
  {
    LongTwoRow0(round);
    LongTwoRow1(round);
    LongTwoRow2(round);
    LongTwoRow3(round);
    FourRows(round, L2_BLOCK, 0, K0, L2_W0, L2_S0, 8, K1, L2_W1, L2_S2,
             16, K2, L2_W2, L2_S4, 24, K3, L2_W3, L2_S6, L2_S8);
  }

  lemma LongTwoSecondHalf(round: Turn)
    requires IsRound(round)
    ensures Run(round, L2_BLOCK, 32, (K4 + K5) + (K6 + K7), (L2_W4 + L2_W5) + (L2_W6 + L2_W7), L2_S8, L2_S16)
  {
    LongTwoRow4(round);
    LongTwoRow5(round);
    LongTwoRow6(round);
    LongTwoRow7(round);
    FourRows(round, L2_BLOCK, 32, K4, L2_W4, L2_S8, 40, K5, L2_W5, L2_S10,
             48, K6, L2_W6, L2_S12, 56, K7, L2_W7, L2_S14, L2_S16);
  }

  lemma LongTwoRounds(round: Turn)
    requires IsRound(round)
    ensures Rounds(L2_S0, L2_BLOCK, |SHA256_K|) == L2_S16
  {
    LongTwoFirstHalf(round);
    LongTwoSecondHalf(round);
    TwoHalves(round, L2_BLOCK, (L2_W0 + L2_W1) + (L2_W2 + L2_W3), L2_S0, L2_S8,
              (L2_W4 + L2_W5) + (L2_W6 + L2_W7), L2_S16);
  }

  lemma LongTwoRowBytes0()
    ensures DigestBytes(L2_W0) == [
      0x00, 0x00, 0x00, 0x00, 0x00, 0x00, 0x00, 0x00, 0x00, 0x00, 0x00, 0x00, 0x00, 0x00, 0x00, 0x00,
      0x00, 0x00, 0x00, 0x00, 0x00, 0x00, 0x00, 0x00, 0x00, 0x00, 0x00, 0x00, 0x00, 0x00, 0x00, 0x00]
  {
    BytesWritten(L2_W0);
    WrittenEight(WordBytes, L2_W0);
  }

  lemma LongTwoRowBytes1()
    ensures DigestBytes(L2_W1) == [
      0x00, 0x00, 0x00, 0x00, 0x00, 0x00, 0x00, 0x00, 0x00, 0x00, 0x00, 0x00, 0x00, 0x00, 0x00, 0x00,
      0x00, 0x00, 0x00, 0x00, 0x00, 0x00, 0x00, 0x00, 0x00, 0x00, 0x00, 0x00, 0x00, 0x00, 0x01, 0xc0]
  {
    BytesWritten(L2_W1);
    WrittenEight(WordBytes, L2_W1);
  }

  lemma LongTwoSum()
    ensures Sum(L2_S0, L2_S16) == LONG_HASH
  {
  }

  lemma LongHashBytes()
    ensures DigestBytes(LONG_HASH.Words()) == [
      0x24, 0x8d, 0x6a, 0x61, 0xd2, 0x06, 0x38, 0xb8, 0xe5, 0xc0, 0x26, 0x93, 0x0c, 0x3e, 0x60, 0x39,
      0xa3, 0x3c, 0xe4, 0x59, 0x64, 0xff, 0x21, 0x67, 0xf6, 0xec, 0xed, 0xd4, 0x19, 0xdb, 0x06, 0xc1]
  {
    BytesWritten(LONG_HASH.Words());
    WrittenEight(WordBytes, LONG_HASH.Words());
  }

  // ----- the two messages -----

  /** `abc`. */
  const ABC_MESSAGE: seq<byte> := [0x61, 0x62, 0x63]

  /** `abcdbcdecdefdefgefghfghighijhijkijkljklmklmnlmnomnopnopq`. */
  const LONG_MESSAGE: seq<byte> := LONG_START + LONG_END

  const LONG_START: seq<byte> := [
    0x61, 0x62, 0x63, 0x64, 0x62, 0x63, 0x64, 0x65, 0x63, 0x64, 0x65, 0x66, 0x64, 0x65, 0x66, 0x67,
    0x65, 0x66, 0x67, 0x68, 0x66, 0x67, 0x68, 0x69, 0x67, 0x68, 0x69, 0x6a, 0x68, 0x69, 0x6a, 0x6b]

  const LONG_END: seq<byte> := [
    0x69, 0x6a, 0x6b, 0x6c, 0x6a, 0x6b, 0x6c, 0x6d, 0x6b, 0x6c, 0x6d, 0x6e, 0x6c, 0x6d, 0x6e, 0x6f,
    0x6d, 0x6e, 0x6f, 0x70, 0x6e, 0x6f, 0x70, 0x71]

  lemma AbcParts()
    ensures DigestBytes(ABC_W0) == ABC_MESSAGE + [0x80] + Zeros(28) && DigestBytes(ABC_W1) == Zeros(24) + Bytes8(24)
  {
    AbcRowBytes0();
    AbcRowBytes1();
    assert Bytes8(24) == [0, 0, 0, 0, 0, 0, 0, 24];
  }

  lemma AbcPadded()
    ensures Pad(ABC_MESSAGE) == DigestBytes(ABC_BLOCK)
  {
    AbcParts();
    BytesConcat(ABC_W0, ABC_W1);
    assert ZeroCount(3) == 52 && Zeros(52) == Zeros(28) + Zeros(24);
  }

  lemma LongOneParts()
    ensures DigestBytes(L1_W0) == LONG_START && DigestBytes(L1_W1) == LONG_END + [0x80] + Zeros(7)
  {
    LongOneRowBytes0();
    LongOneRowBytes1();
  }

  lemma LongTwoParts()
    ensures DigestBytes(L2_W0) == Zeros(32) && DigestBytes(L2_W1) == Zeros(24) + Bytes8(448)
  {
    LongTwoRowBytes0();
    LongTwoRowBytes1();
    assert Bytes8(448) == [0, 0, 0, 0, 0, 0, 1, 0xc0];
  }

  lemma LongPadded()
    ensures Pad(LONG_MESSAGE) == DigestBytes(L1_BLOCK) + DigestBytes(L2_BLOCK)
  {
    LongOneParts();
    LongTwoParts();
    BytesConcat(L1_W0, L1_W1);
    BytesConcat(L2_W0, L2_W1);
    assert ZeroCount(56) == 63 && Zeros(63) == Zeros(7) + (Zeros(32) + Zeros(24));
  }

  lemma AbcHash()
    ensures Fold(Compression, Pad(ABC_MESSAGE)) == ABC_HASH
  {
    AbcPadded();
    AbcRounds(TheRound());
    AbcSum();
    NextHash([], ABC_BLOCK, ABC_S0, ABC_S16, ABC_HASH);
  }

  lemma LongHash()
    ensures Fold(Compression, Pad(LONG_MESSAGE)) == LONG_HASH
  {
    LongPadded();
    LongOneRounds(TheRound());
    LongOneSum();
    NextHash([], L1_BLOCK, L1_S0, L1_S16, L2_S0);
    LongTwoRounds(TheRound());
    LongTwoSum();
    NextHash(DigestBytes(L1_BLOCK), L2_BLOCK, L2_S0, L2_S16, LONG_HASH);
  }

  lemma Sha256OfAbc()
    ensures Sha256([0x61, 0x62, 0x63]) == [
      0xba, 0x78, 0x16, 0xbf, 0x8f, 0x01, 0xcf, 0xea, 0x41, 0x41, 0x40, 0xde, 0x5d, 0xae, 0x22, 0x23,
      0xb0, 0x03, 0x61, 0xa3, 0x96, 0x17, 0x7a, 0x9c, 0xb4, 0x10, 0xff, 0x61, 0xf2, 0x00, 0x15, 0xad]
  {
    AbcHash();
    AbcHashBytes();
  }

  lemma Sha256OfTwoBlocks()
    ensures Sha256(LONG_MESSAGE) == [
      0x24, 0x8d, 0x6a, 0x61, 0xd2, 0x06, 0x38, 0xb8, 0xe5, 0xc0, 0x26, 0x93, 0x0c, 0x3e, 0x60, 0x39,
      0xa3, 0x3c, 0xe4, 0x59, 0x64, 0xff, 0x21, 0x67, 0xf6, 0xec, 0xed, 0xd4, 0x19, 0xdb, 0x06, 0xc1]
  {
    LongHash();
    LongHashBytes();
  }
}
