/** The primes whose roots give the SHA-256 constants. */
module Primes {

  const P0: seq<nat> := [2, 3, 5, 7, 11, 13, 17, 19]
  const P1: seq<nat> := [23, 29, 31, 37, 41, 43, 47, 53]
  const P2: seq<nat> := [59, 61, 67, 71, 73, 79, 83, 89]
  const P3: seq<nat> := [97, 101, 103, 107, 109, 113, 127, 131]
  const P4: seq<nat> := [137, 139, 149, 151, 157, 163, 167, 173]
  const P5: seq<nat> := [179, 181, 191, 193, 197, 199, 211, 223]
  const P6: seq<nat> := [227, 229, 233, 239, 241, 251, 257, 263]
  const P7: seq<nat> := [269, 271, 277, 281, 283, 293, 307, 311]

  /** The first 64 primes. */
  const PRIMES: seq<nat> := ((P0 + P1) + (P2 + P3)) + ((P4 + P5) + (P6 + P7))

  predicate Divides(d: nat, n: int)
    requires d > 0
  {
    n % d == 0
  }

  predicate IsPrime(n: nat) {
    n >= 2 && forall d: nat | 2 <= d < n :: !Divides(d, n)
  }

  /** A proper prime factor below 19. */
  predicate SmallFactor(n: int) {
    || (n > 2 && n % 2 == 0) || (n > 3 && n % 3 == 0) || (n > 5 && n % 5 == 0) || (n > 7 && n % 7 == 0)
    || (n > 11 && n % 11 == 0) || (n > 13 && n % 13 == 0) || (n > 17 && n % 17 == 0)
  }

  lemma DividesMultiple(q: nat, m: int, e: int)
    requires q > 0 && Divides(q, m)
    ensures Divides(q, m * e)
  {
    var k := m / q;
    assert m == q * k;
    assert m * e == q * (k * e);
    MultipleDivides(q, k * e);
  }

  lemma MultipleDivides(q: nat, k: int)
    requires q > 0
    ensures Divides(q, q * k)
  {
    var j := k - q * k / q;
    assert q * j == q * k - q * (q * k / q);
    if j != 0 {
      Multiples(q, j);
    }
  }

  lemma Multiples(q: int, j: int)
    requires q > 0 && j != 0
    ensures q * j >= q || q * j <= -q
  {
    if j > 0 {
      assert q * (j - 1) >= 0;
    } else {
      assert q * (-j - 1) >= 0;
    }
  }

  /** The least factor: an odd number below 19 that 3 does not divide is prime. */
  function LeastFactor(m: nat): (q: nat)
    requires 2 <= m <= 18
    ensures q in [2, 3, 5, 7, 11, 13, 17] && q <= m && Divides(q, m)
  {
    if m % 2 == 0 then 2 else if m % 3 == 0 then 3 else m
  }

  /** A multiple of a number from 2 to 18 has a prime factor below 19. */
  lemma SmallFactorOf(m: nat, e: int)
    requires 2 <= m <= 18 && e >= 2
    ensures SmallFactor(m * e)
  {
    DividesMultiple(LeastFactor(m), m, e);
    Exceeds(m, e);
  }

  lemma Exceeds(m: nat, e: int)
    requires m >= 1 && e >= 2
    ensures m * e > m
  {
    assert m * e == m + m * (e - 1);
  }

  /** Below 19 * 19, composite means divisible by one of seven primes. */
  lemma PrimeIffNoSmallFactor(n: nat)
    requires 2 <= n < 361
    ensures IsPrime(n) <==> !SmallFactor(n)
  {
    if !IsPrime(n) {
      var d: nat :| 2 <= d < n && Divides(d, n);
      var e := n / d;
      assert n == d * e;
      ProductHasSmallFactor(d, e);
    }
    if SmallFactor(n) {
      SmallFactorDivides(n);
    }
  }

  lemma ProductHasSmallFactor(d: nat, e: int)
    requires 2 <= d < d * e < 361
    ensures SmallFactor(d * e)
  {
    FactorBounds(d, e);
    if d <= 18 {
      SmallFactorOf(d, e);
    } else {
      SmallFactorOf(e, d);
      assert d * e == e * d;
    }
  }

  lemma SmallFactorDivides(n: nat)
    requires SmallFactor(n)
    ensures exists d: nat :: 2 <= d < n && Divides(d, n)
  {
    var q: nat := if n > 2 && n % 2 == 0 then 2 else if n > 3 && n % 3 == 0 then 3 else if n > 5 && n % 5 == 0 then 5
                  else if n > 7 && n % 7 == 0 then 7 else if n > 11 && n % 11 == 0 then 11
                  else if n > 13 && n % 13 == 0 then 13 else 17;
    assert Divides(q, n);
  }

  lemma FactorBounds(d: nat, e: int)
    requires 2 <= d < d * e < 361
    ensures e >= 2 && (d <= 18 || e <= 18)
  {
    if d >= 19 {
      assert d * e >= 19 * e;
    }
  }

  /** `q` is the first prime after `p`. */
  predicate NextPrime(p: nat, q: nat) {
    p < q && IsPrime(q) && forall n: nat | p < n < q :: !IsPrime(n)
  }

  /** The `k` numbers before `q` all have a small factor. */
  predicate CompositeRun(q: nat, k: nat)
    decreases k
  {
    k == 0 || (k <= q && SmallFactor(q - k) && CompositeRun(q, k - 1))
  }

  lemma {:induction false} RunAt(q: nat, k: nat, n: nat)
    requires CompositeRun(q, k) && q - k <= n < q
    ensures SmallFactor(n)
  {
    if n > q - k {
      RunAt(q, k - 1, n);
    }
  }

  /** `q` comes next after `k` composites. */
  lemma Next(k: nat, q: nat)
    requires k + 1 < q < 361 && !SmallFactor(q) && CompositeRun(q, k)
    ensures NextPrime(q - k - 1, q)
  {
    PrimeIffNoSmallFactor(q);
    forall n: nat | q - k - 1 < n < q
      ensures !IsPrime(n)
    {
      RunAt(q, k, n);
      PrimeIffNoSmallFactor(n);
    }
  }

  /** Each entry is the first prime after the one before it. */
  predicate Consecutive(ps: seq<nat>) {
    forall i | 0 <= i < |ps| - 1 :: NextPrime(ps[i], ps[i + 1])
  }

  lemma Joined(ps: seq<nat>, qs: seq<nat>)
    requires ps != [] && qs != [] && Consecutive(ps) && Consecutive(qs) && NextPrime(ps[|ps| - 1], qs[0])
    ensures Consecutive(ps + qs)
  {
  }

  lemma From2()
    ensures NextPrime(2, 3) && NextPrime(3, 5) && NextPrime(5, 7) && NextPrime(7, 11)
  {
    Next(0, 3);
    Next(1, 5);
    Next(1, 7);
    Next(3, 11);
  }

  lemma From11()
    ensures NextPrime(11, 13) && NextPrime(13, 17) && NextPrime(17, 19) && NextPrime(19, 23)
  {
    Next(1, 13);
    Next(3, 17);
    Next(1, 19);
    Next(3, 23);
  }

  lemma From23()
    ensures NextPrime(23, 29) && NextPrime(29, 31) && NextPrime(31, 37) && NextPrime(37, 41)
  {
    Next(5, 29);
    Next(1, 31);
    Next(5, 37);
    Next(3, 41);
  }

  lemma From41()
    ensures NextPrime(41, 43) && NextPrime(43, 47) && NextPrime(47, 53) && NextPrime(53, 59)
  {
    Next(1, 43);
    Next(3, 47);
    Next(5, 53);
    Next(5, 59);
  }

  lemma From59()
    ensures NextPrime(59, 61) && NextPrime(61, 67) && NextPrime(67, 71) && NextPrime(71, 73)
  {
    Next(1, 61);
    Next(5, 67);
    Next(3, 71);
    Next(1, 73);
  }

  lemma From73()
    ensures NextPrime(73, 79) && NextPrime(79, 83) && NextPrime(83, 89) && NextPrime(89, 97)
  {
    Next(5, 79);
    Next(3, 83);
    Next(5, 89);
    Next(7, 97);
  }

  lemma From97()
    ensures NextPrime(97, 101) && NextPrime(101, 103) && NextPrime(103, 107) && NextPrime(107, 109)
  {
    Next(3, 101);
    Next(1, 103);
    Next(3, 107);
    Next(1, 109);
  }

  lemma From109()
    ensures NextPrime(109, 113) && NextPrime(113, 127) && NextPrime(127, 131) && NextPrime(131, 137)
  {
    Next(3, 113);
    Next(13, 127);
    Next(3, 131);
    Next(5, 137);
  }

  lemma From137()
    ensures NextPrime(137, 139) && NextPrime(139, 149) && NextPrime(149, 151) && NextPrime(151, 157)
  {
    Next(1, 139);
    Next(9, 149);
    Next(1, 151);
    Next(5, 157);
  }

  lemma From157()
    ensures NextPrime(157, 163) && NextPrime(163, 167) && NextPrime(167, 173) && NextPrime(173, 179)
  {
    Next(5, 163);
    Next(3, 167);
    Next(5, 173);
    Next(5, 179);
  }

  lemma From179()
    ensures NextPrime(179, 181) && NextPrime(181, 191) && NextPrime(191, 193) && NextPrime(193, 197)
  {
    Next(1, 181);
    Next(9, 191);
    Next(1, 193);
    Next(3, 197);
  }

  lemma From197()
    ensures NextPrime(197, 199) && NextPrime(199, 211) && NextPrime(211, 223) && NextPrime(223, 227)
  {
    Next(1, 199);
    Next(11, 211);
    Next(11, 223);
    Next(3, 227);
  }

  lemma From227()
    ensures NextPrime(227, 229) && NextPrime(229, 233) && NextPrime(233, 239) && NextPrime(239, 241)
  {
    Next(1, 229);
    Next(3, 233);
    Next(5, 239);
    Next(1, 241);
  }

  lemma From241()
    ensures NextPrime(241, 251) && NextPrime(251, 257) && NextPrime(257, 263) && NextPrime(263, 269)
  {
    Next(9, 251);
    Next(5, 257);
    Next(5, 263);
    Next(5, 269);
  }

  lemma From269()
    ensures NextPrime(269, 271) && NextPrime(271, 277) && NextPrime(277, 281) && NextPrime(281, 283)
  {
    Next(1, 271);
    Next(5, 277);
    Next(3, 281);
    Next(1, 283);
  }

  lemma From283()
    ensures NextPrime(283, 293) && NextPrime(293, 307) && NextPrime(307, 311)
  {
    Next(9, 293);
    Next(13, 307);
    Next(3, 311);
  }

  lemma Block0()
    ensures Consecutive(P0) && NextPrime(19, 23)
  {
    From2();
    From11();
  }

  lemma Block1()
    ensures Consecutive(P1) && NextPrime(53, 59)
  {
    From23();
    From41();
  }

  lemma Block2()
    ensures Consecutive(P2) && NextPrime(89, 97)
  {
    From59();
    From73();
  }

  lemma Block3()
    ensures Consecutive(P3) && NextPrime(131, 137)
  {
    From97();
    From109();
  }

  lemma Block4()
    ensures Consecutive(P4) && NextPrime(173, 179)
  {
    From137();
    From157();
  }

  lemma Block5()
    ensures Consecutive(P5) && NextPrime(223, 227)
  {
    From179();
    From197();
  }

  lemma Block6()
    ensures Consecutive(P6) && NextPrime(263, 269)
  {
    From227();
    From241();
  }

  lemma Block7()
    ensures Consecutive(P7)
  {
    From269();
    From283();
  }

  /** The list is the first 64 primes: it starts at 2 and skips none. */
  lemma FirstPrimes()
    ensures |PRIMES| == 64 && PRIMES[0] == 2 && NextPrime(1, 2) && Consecutive(PRIMES)
  {
    Next(0, 2);
    Block0();
    Block1();
    Block2();
    Block3();
    Block4();
    Block5();
    Block6();
    Block7();
    Joined(P0, P1);
    Joined(P2, P3);
    Joined(P4, P5);
    Joined(P6, P7);
    Joined(P0 + P1, P2 + P3);
    Joined(P4 + P5, P6 + P7);
    Joined((P0 + P1) + (P2 + P3), (P4 + P5) + (P6 + P7));
  }
}
