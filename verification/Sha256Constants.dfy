/** Where the SHA-256 constants come from: FIPS 180-4, sections 4.2.2 and 5.3.3. */
module Sha256Constants {
  import opened Primes
  import opened Words
  import opened Sha256Spec

  const TWO_32: nat := 0x1_0000_0000

  function Square(x: nat): nat { x * x }

  function Cube(x: nat): nat { x * x * x }

  /** `w` is the first 32 bits of the fractional part of the cube root of `p`, whose integer part is `c`. */
  predicate CubeRootFraction(p: nat, c: nat, w: nat) {
    w < TWO_32 && Cube(c * TWO_32 + w) <= p * Cube(TWO_32) < Cube(c * TWO_32 + w + 1)
  }

  predicate SquareRootFraction(p: nat, c: nat, w: nat) {
    w < TWO_32 && Square(c * TWO_32 + w) <= p * Square(TWO_32) < Square(c * TWO_32 + w + 1)
  }

  function CubeRoot(p: nat): nat {
    if p < 8 then 1 else if p < 27 then 2 else if p < 64 then 3 else if p < 125 then 4 else if p < 216 then 5 else 6
  }

  function SquareRoot(p: nat): nat {
    if p < 4 then 1 else if p < 9 then 2 else if p < 16 then 3 else 4
  }

  predicate RoundConstant(p: nat, w: Word) {
    CubeRootFraction(p, CubeRoot(p), w as int)
  }

  predicate RoundConstants(ps: seq<nat>, ks: seq<Word>) {
    |ps| == |ks| && forall t | 0 <= t < |ks| :: RoundConstant(ps[t], ks[t])
  }

  predicate InitialWord(h: Word, p: nat) {
    SquareRootFraction(p, SquareRoot(p), h as int)
  }

  lemma Check(p: nat, w: Word, n: nat)
    requires w as int == n && CubeRootFraction(p, CubeRoot(p), n)
    ensures RoundConstant(p, w)
  {
  }

  lemma Row0()
    ensures RoundConstants(P0, K0)
  {
    Check(2, 0x428a2f98, 0x428a2f98);
    Check(3, 0x71374491, 0x71374491);
    Check(5, 0xb5c0fbcf, 0xb5c0fbcf);
    Check(7, 0xe9b5dba5, 0xe9b5dba5);
    Check(11, 0x3956c25b, 0x3956c25b);
    Check(13, 0x59f111f1, 0x59f111f1);
    Check(17, 0x923f82a4, 0x923f82a4);
    Check(19, 0xab1c5ed5, 0xab1c5ed5);
  }

  lemma Row1()
    ensures RoundConstants(P1, K1)
  {
    Check(23, 0xd807aa98, 0xd807aa98);
    Check(29, 0x12835b01, 0x12835b01);
    Check(31, 0x243185be, 0x243185be);
    Check(37, 0x550c7dc3, 0x550c7dc3);
    Check(41, 0x72be5d74, 0x72be5d74);
    Check(43, 0x80deb1fe, 0x80deb1fe);
    Check(47, 0x9bdc06a7, 0x9bdc06a7);
    Check(53, 0xc19bf174, 0xc19bf174);
  }

  lemma Row2()
    ensures RoundConstants(P2, K2)
  {
    Check(59, 0xe49b69c1, 0xe49b69c1);
    Check(61, 0xefbe4786, 0xefbe4786);
    Check(67, 0x0fc19dc6, 0x0fc19dc6);
    Check(71, 0x240ca1cc, 0x240ca1cc);
    Check(73, 0x2de92c6f, 0x2de92c6f);
    Check(79, 0x4a7484aa, 0x4a7484aa);
    Check(83, 0x5cb0a9dc, 0x5cb0a9dc);
    Check(89, 0x76f988da, 0x76f988da);
  }

  lemma Row3()
    ensures RoundConstants(P3, K3)
  {
    Check(97, 0x983e5152, 0x983e5152);
    Check(101, 0xa831c66d, 0xa831c66d);
    Check(103, 0xb00327c8, 0xb00327c8);
    Check(107, 0xbf597fc7, 0xbf597fc7);
    Check(109, 0xc6e00bf3, 0xc6e00bf3);
    Check(113, 0xd5a79147, 0xd5a79147);
    Check(127, 0x06ca6351, 0x06ca6351);
    Check(131, 0x14292967, 0x14292967);
  }

  lemma Row4()
    ensures RoundConstants(P4, K4)
  {
    Check(137, 0x27b70a85, 0x27b70a85);
    Check(139, 0x2e1b2138, 0x2e1b2138);
    Check(149, 0x4d2c6dfc, 0x4d2c6dfc);
    Check(151, 0x53380d13, 0x53380d13);
    Check(157, 0x650a7354, 0x650a7354);
    Check(163, 0x766a0abb, 0x766a0abb);
    Check(167, 0x81c2c92e, 0x81c2c92e);
    Check(173, 0x92722c85, 0x92722c85);
  }

  lemma Row5()
    ensures RoundConstants(P5, K5)
  {
    Check(179, 0xa2bfe8a1, 0xa2bfe8a1);
    Check(181, 0xa81a664b, 0xa81a664b);
    Check(191, 0xc24b8b70, 0xc24b8b70);
    Check(193, 0xc76c51a3, 0xc76c51a3);
    Check(197, 0xd192e819, 0xd192e819);
    Check(199, 0xd6990624, 0xd6990624);
    Check(211, 0xf40e3585, 0xf40e3585);
    Check(223, 0x106aa070, 0x106aa070);
  }

  lemma Row6()
    ensures RoundConstants(P6, K6)
  {
    Check(227, 0x19a4c116, 0x19a4c116);
    Check(229, 0x1e376c08, 0x1e376c08);
    Check(233, 0x2748774c, 0x2748774c);
    Check(239, 0x34b0bcb5, 0x34b0bcb5);
    Check(241, 0x391c0cb3, 0x391c0cb3);
    Check(251, 0x4ed8aa4a, 0x4ed8aa4a);
    Check(257, 0x5b9cca4f, 0x5b9cca4f);
    Check(263, 0x682e6ff3, 0x682e6ff3);
  }

  lemma Row7()
    ensures RoundConstants(P7, K7)
  {
    Check(269, 0x748f82ee, 0x748f82ee);
    Check(271, 0x78a5636f, 0x78a5636f);
    Check(277, 0x84c87814, 0x84c87814);
    Check(281, 0x8cc70208, 0x8cc70208);
    Check(283, 0x90befffa, 0x90befffa);
    Check(293, 0xa4506ceb, 0xa4506ceb);
    Check(307, 0xbef9a3f7, 0xbef9a3f7);
    Check(311, 0xc67178f2, 0xc67178f2);
  }

  lemma Rows(ps: seq<nat>, ks: seq<Word>, qs: seq<nat>, ls: seq<Word>)
    requires RoundConstants(ps, ks) && RoundConstants(qs, ls)
    ensures RoundConstants(ps + qs, ks + ls)
  {
  }

  /** The 64 round constants are the cube roots of the first 64 primes, in order. */
  lemma RoundConstantsFromPrimes()
    ensures RoundConstants(PRIMES, SHA256_K)
  {
    Row0();
    Row1();
    Row2();
    Row3();
    Row4();
    Row5();
    Row6();
    Row7();
    Rows(P0, K0, P1, K1);
    Rows(P2, K2, P3, K3);
    Rows(P4, K4, P5, K5);
    Rows(P6, K6, P7, K7);
    Rows(P0 + P1, K0 + K1, P2 + P3, K2 + K3);
    Rows(P4 + P5, K4 + K5, P6 + P7, K6 + K7);
    Rows((P0 + P1) + (P2 + P3), (K0 + K1) + (K2 + K3), (P4 + P5) + (P6 + P7), (K4 + K5) + (K6 + K7));
  }

  /** The initial hash value is the square roots of the first eight. */
  lemma InitialHashFromPrimes()
    ensures InitialWord(H0.a, 2) && InitialWord(H0.b, 3) && InitialWord(H0.c, 5) && InitialWord(H0.d, 7)
    ensures InitialWord(H0.e, 11) && InitialWord(H0.f, 13) && InitialWord(H0.g, 17) && InitialWord(H0.h, 19)
  {
  }
}
