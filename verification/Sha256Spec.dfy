/** SHA-256 as FIPS 180-4 states it: recursive message schedule, round function,
    padding, and the one-shot fold of the compression over the padded blocks. */
module Sha256Spec {
  import opened Bytes
  import opened Words

  datatype Vars = Vars(a: Word, b: Word, c: Word, d: Word, e: Word, f: Word, g: Word, h: Word) {
    function Words(): (s: seq<Word>)
      ensures |s| == 8
    {
      [a, b, c, d, e, f, g, h]
    }
  }

  // ----- functions and constants, section 4.1.2 and 4.2.2 -----

  function Ch(x: Word, y: Word, z: Word): Word { Xor(And(x, y), And(Not(x), z)) }

  function Maj(x: Word, y: Word, z: Word): Word { XorThree(And(x, y), And(x, z), And(y, z)) }

  function BigSigma0(x: Word): Word { XorThree(Rotr(x, 2), Rotr(x, 13), Rotr(x, 22)) }

  function BigSigma1(x: Word): Word { XorThree(Rotr(x, 6), Rotr(x, 11), Rotr(x, 25)) }

  function SmallSigma0(x: Word): Word { XorThree(Rotr(x, 7), Rotr(x, 18), Shr(x, 3)) }

  function SmallSigma1(x: Word): Word { XorThree(Rotr(x, 17), Rotr(x, 19), Shr(x, 10)) }

  lemma ChBits(x: Word, y: Word, z: Word)
    ensures (x & y) ^ (!x & z) == (x & y) | (!x & z)
  {
  }

  lemma MajBits(x: Word, y: Word, z: Word)
    ensures (x & y) ^ (x & z) ^ (y & z) == (x & y) | (x & z) | (y & z)
  {
  }

  /** Ch takes each bit from `y` or `z`, as `x` says. */
  lemma ChMeaning(x: Word, y: Word, z: Word)
    ensures Ch(x, y, z) == (x & y) | (!x & z)
  {
    ChBits(x, y, z);
  }

  /** Maj is the majority of the three bits. */
  lemma MajMeaning(x: Word, y: Word, z: Word)
    ensures Maj(x, y, z) == (x & y) | (x & z) | (y & z)
  {
    MajBits(x, y, z);
  }

  // each bit of a sigma is the parity of three bits of its argument; the shifts drop bits out

  lemma BigSigma0Bits(x: Word, i: Place)
    ensures Bit(BigSigma0(x), i) == Parity(Bit(x, i + 2), Bit(x, i + 13), Bit(x, i + 22))
  {
    RotrBit2(x, i);
    RotrBit13(x, i);
    RotrBit22(x, i);
    XorBit(Rotr(x, 2), Rotr(x, 13), Rotr(x, 22), i);
  }

  lemma BigSigma1Bits(x: Word, i: Place)
    ensures Bit(BigSigma1(x), i) == Parity(Bit(x, i + 6), Bit(x, i + 11), Bit(x, i + 25))
  {
    RotrBit6(x, i);
    RotrBit11(x, i);
    RotrBit25(x, i);
    XorBit(Rotr(x, 6), Rotr(x, 11), Rotr(x, 25), i);
  }

  lemma SmallSigma0Bits(x: Word, i: Place)
    ensures Bit(SmallSigma0(x), i) == Parity(Bit(x, i + 7), Bit(x, i + 18), if i < 29 then Bit(x, i + 3) else 0)
  {
    RotrBit7(x, i);
    RotrBit18(x, i);
    ShrBit3(x, i);
    XorBit(Rotr(x, 7), Rotr(x, 18), Shr(x, 3), i);
  }

  lemma SmallSigma1Bits(x: Word, i: Place)
    ensures Bit(SmallSigma1(x), i) == Parity(Bit(x, i + 17), Bit(x, i + 19), if i < 22 then Bit(x, i + 10) else 0)
  {
    RotrBit17(x, i);
    RotrBit19(x, i);
    ShrBit10(x, i);
    XorBit(Rotr(x, 17), Rotr(x, 19), Shr(x, 10), i);
  }

  // the 64 round constants, eight to a row
  const K0: seq<Word> := [
    0x428a2f98, 0x71374491, 0xb5c0fbcf, 0xe9b5dba5, 0x3956c25b, 0x59f111f1, 0x923f82a4, 0xab1c5ed5]
  const K1: seq<Word> := [
    0xd807aa98, 0x12835b01, 0x243185be, 0x550c7dc3, 0x72be5d74, 0x80deb1fe, 0x9bdc06a7, 0xc19bf174]
  const K2: seq<Word> := [
    0xe49b69c1, 0xefbe4786, 0x0fc19dc6, 0x240ca1cc, 0x2de92c6f, 0x4a7484aa, 0x5cb0a9dc, 0x76f988da]
  const K3: seq<Word> := [
    0x983e5152, 0xa831c66d, 0xb00327c8, 0xbf597fc7, 0xc6e00bf3, 0xd5a79147, 0x06ca6351, 0x14292967]
  const K4: seq<Word> := [
    0x27b70a85, 0x2e1b2138, 0x4d2c6dfc, 0x53380d13, 0x650a7354, 0x766a0abb, 0x81c2c92e, 0x92722c85]
  const K5: seq<Word> := [
    0xa2bfe8a1, 0xa81a664b, 0xc24b8b70, 0xc76c51a3, 0xd192e819, 0xd6990624, 0xf40e3585, 0x106aa070]
  const K6: seq<Word> := [
    0x19a4c116, 0x1e376c08, 0x2748774c, 0x34b0bcb5, 0x391c0cb3, 0x4ed8aa4a, 0x5b9cca4f, 0x682e6ff3]
  const K7: seq<Word> := [
    0x748f82ee, 0x78a5636f, 0x84c87814, 0x8cc70208, 0x90befffa, 0xa4506ceb, 0xbef9a3f7, 0xc67178f2]

  const SHA256_K: seq<Word> := ((K0 + K1) + (K2 + K3)) + ((K4 + K5) + (K6 + K7))

  const H0 := Vars(0x6a09e667, 0xbb67ae85, 0x3c6ef372, 0xa54ff53a, 0x510e527f, 0x9b05688c, 0x1f83d9ab, 0x5be0cd19)

  // ----- compression, section 6.2.2 -----

  /** Section 5.2.1: a block is parsed into sixteen big-endian words. */
  function Parse(block: seq<byte>): (m: seq<Word>)
    requires |block| == 64
    ensures |m| == 16
  {
    seq(16, t requires 0 <= t < 16 => BigEndianWord(block[4 * t], block[4 * t + 1], block[4 * t + 2], block[4 * t + 3]))
  }

  function W(m: seq<Word>, t: nat): Word
    requires |m| == 16 && t < 64
  {
    if t < 16 then m[t]
    else AddFour(SmallSigma1(W(m, t - 2)), W(m, t - 7), SmallSigma0(W(m, t - 15)), W(m, t - 16))
  }

  function Round(v: Vars, k: Word, w: Word): Vars {
    var t1 := Add(Add(Add(Add(v.h, BigSigma1(v.e)), Ch(v.e, v.f, v.g)), k), w);
    var t2 := Add(BigSigma0(v.a), Maj(v.a, v.b, v.c));
    Vars(Add(t1, t2), v.a, v.b, v.c, Add(v.d, t1), v.e, v.f, v.g)
  }

  /** The working variables after the first `t` rounds. */
  function Rounds(v: Vars, m: seq<Word>, t: nat): Vars
    requires |m| == 16 && t <= |SHA256_K|
  {
    if t == 0 then v else Round(Rounds(v, m, t - 1), SHA256_K[t - 1], W(m, t - 1))
  }

  function Sum(v: Vars, w: Vars): Vars {
    Vars(Add(v.a, w.a), Add(v.b, w.b), Add(v.c, w.c), Add(v.d, w.d),
         Add(v.e, w.e), Add(v.f, w.f), Add(v.g, w.g), Add(v.h, w.h))
  }

  function Compress(v: Vars, block: seq<byte>): Vars
    requires |block| == 64
  {
    Sum(v, Rounds(v, Parse(block), |SHA256_K|))
  }

  type Step = (Vars, seq<byte>) -> Vars

  /** Compression as a total function, for use as a value. */
  function Compression(v: Vars, block: seq<byte>): Vars {
    if |block| == 64 then Compress(v, block) else v
  }

  /** The hash value after the blocks of `s`, for any block step. */
  function Fold(step: Step, s: seq<byte>): Vars
    requires |s| % 64 == 0
  {
    if s == [] then H0 else step(Fold(step, s[..|s| - 64]), s[|s| - 64..])
  }

  lemma FoldBlock(step: Step, a: seq<byte>, b: seq<byte>)
    requires |a| % 64 == 0 && |b| == 64
    ensures |a + b| % 64 == 0 && Fold(step, a + b) == step(Fold(step, a), b)
  {
    assert (a + b)[..|a + b| - 64] == a;
    assert (a + b)[|a + b| - 64..] == b;
  }

  // ----- padding, section 5.1.1 -----

  function Zeros(n: nat): (s: seq<byte>)
    ensures |s| == n
  {
    seq(n, _ => 0)
  }

  /** The number of zero bytes between the 0x80 and the length field. */
  function ZeroCount(n: nat): nat {
    (119 - n % 64) % 64
  }

  /** A 0x80 byte, `k` zeros and the length field take `n` bytes to a block boundary. */
  predicate FillsBlock(n: nat, k: nat) {
    (n + 1 + k + 8) % 64 == 0
  }

  /** Section 5.1.1: the zero count is the smallest that leaves exactly eight
      bytes of the last block for the length. */
  lemma ZeroCountMinimal(n: nat)
    ensures FillsBlock(n, ZeroCount(n))
    ensures forall k: nat | k < ZeroCount(n) :: !FillsBlock(n, k)
  {
    var q, r := n / 64, n % 64;
    var z := ZeroCount(n);
    assert z == if r <= 55 then 55 - r else 119 - r;
    assert n + 1 + z + 8 == 64 * (q + if r <= 55 then 1 else 2);
    forall k: nat | k < z
      ensures !FillsBlock(n, k)
    {
      var m := n + 1 + k + 8;
      assert m == 64 * q + (r + 9 + k);
      if r + 9 + k < 64 {
        assert m % 64 == r + 9 + k;
      } else {
        assert m == 64 * (q + 1) + (r + 9 + k - 64);
      }
    }
  }

  function Bytes8(n: nat): (s: seq<byte>)
    ensures |s| == 8
  {
    [n / 0x100_0000_0000_0000 % 256, n / 0x1_0000_0000_0000 % 256, n / 0x100_0000_0000 % 256, n / 0x1_0000_0000 % 256,
     n / 0x100_0000 % 256, n / 0x1_0000 % 256, n / 0x100 % 256, n % 256]
  }

  function Pad(m: seq<byte>): (s: seq<byte>)
    ensures |s| % 64 == 0
  {
    ZeroCountMinimal(|m|);
    assert FillsBlock(|m|, ZeroCount(|m|));
    m + [0x80] + Zeros(ZeroCount(|m|)) + Bytes8(8 * |m|)
  }

  const TWO_64: nat := 0x1_0000_0000_0000_0000

  lemma ByteShift(n: nat)
    ensures n / 0x100_0000_0000_0000 == n / 0x1_0000_0000_0000 / 256
    ensures n / 0x1_0000_0000_0000 == n / 0x100_0000_0000 / 256
    ensures n / 0x100_0000_0000 == n / 0x1_0000_0000 / 256 && n / 0x1_0000_0000 == n / 0x100_0000 / 256
    ensures n / 0x100_0000 == n / 0x1_0000 / 256 && n / 0x1_0000 == n / 0x100 / 256
  {
  }

  lemma NextByte(s: seq<byte>, k: nat, x: nat)
    requires k < |s| && Val256(s[..k]) == x / 256 && s[k] == x % 256
    ensures Val256(s[..k + 1]) == x
  {
    Val256Snoc(s, k);
  }

  /** The length field is the bit length, as long as that fits 64 bits. */
  lemma LengthField(n: nat)
    requires n < TWO_64
    ensures Val256(Bytes8(n)) == n
  {
    var s := Bytes8(n);
    ByteShift(n);
    assert s[..0] == [] && s[..8] == s;
    NextByte(s, 0, n / 0x100_0000_0000_0000);
    NextByte(s, 1, n / 0x1_0000_0000_0000);
    NextByte(s, 2, n / 0x100_0000_0000);
    NextByte(s, 3, n / 0x1_0000_0000);
    NextByte(s, 4, n / 0x100_0000);
    NextByte(s, 5, n / 0x1_0000);
    NextByte(s, 6, n / 0x100);
    NextByte(s, 7, n);
  }

  /** Distinct messages of fewer than 2^61 bytes stay distinct after padding. */
  lemma PadInjective(m: seq<byte>, n: seq<byte>)
    requires 8 * |m| < TWO_64 && 8 * |n| < TWO_64 && Pad(m) == Pad(n)
    ensures m == n
  {
    LengthField(8 * |m|);
    LengthField(8 * |n|);
    assert Bytes8(8 * |m|) == Pad(m)[|Pad(m)| - 8..];
    assert Bytes8(8 * |n|) == Pad(n)[|Pad(n)| - 8..];
    assert m == Pad(m)[..|m|] && n == Pad(n)[..|n|];
  }

  function DigestBytes(ws: seq<Word>): (s: seq<byte>)
    ensures |s| == 4 * |ws|
  {
    if ws == [] then [] else DigestBytes(ws[..|ws| - 1]) + WordBytes(ws[|ws| - 1])
  }

  /** The digest of a message: pad, cut into blocks, fold, serialise. */
  function Sha256(m: seq<byte>): (d: seq<byte>)
    ensures |d| == 32
  {
    DigestBytes(Fold(Compression, Pad(m)).Words())
  }
}
