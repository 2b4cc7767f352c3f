/** The operations on 32-bit words of FIPS 180-4, section 3.2. */
module Words {
  import opened Bytes

  type Word = bv32

  /** Addition modulo 2^32. */
  function Add(x: Word, y: Word): Word { x + y }

  function AddFour(p: Word, q: Word, r: Word, s: Word): Word { p + q + r + s }

  function Xor(x: Word, y: Word): Word { x ^ y }

  function XorThree(x: Word, y: Word, z: Word): Word { x ^ y ^ z }

  function And(x: Word, y: Word): Word { x & y }

  function Not(x: Word): Word { !x }

  function Shr(x: Word, n: Word): Word
    requires n < 32
  {
    x >> n
  }

  function Rotr(x: Word, n: Word): Word
    requires 0 < n < 32
  {
    (x >> n) | (x << (32 - n))
  }

  function BigEndianWord(b0: byte, b1: byte, b2: byte, b3: byte): Word {
    (b0 as Word << 24) | (b1 as Word << 16) | (b2 as Word << 8) | b3 as Word
  }

  function WordBytes(w: Word): (s: seq<byte>)
    ensures |s| == 4
  {
    [((w >> 24) & 0xff) as bv8 as int, ((w >> 16) & 0xff) as bv8 as int,
     ((w >> 8) & 0xff) as bv8 as int, (w & 0xff) as bv8 as int]
  }

  /** The shift-and-or rotation is a rotation of the bits, for every amount SHA-256 uses. */
  lemma RotrRotates(x: Word)
    ensures Rotr(x, 2) == x.RotateRight(2) && Rotr(x, 13) == x.RotateRight(13) && Rotr(x, 22) == x.RotateRight(22)
    ensures Rotr(x, 6) == x.RotateRight(6) && Rotr(x, 11) == x.RotateRight(11) && Rotr(x, 25) == x.RotateRight(25)
    ensures Rotr(x, 7) == x.RotateRight(7) && Rotr(x, 18) == x.RotateRight(18)
    ensures Rotr(x, 17) == x.RotateRight(17) && Rotr(x, 19) == x.RotateRight(19)
  {
  }

  // ----- single bits -----

  /** The place of a bit, counted from the least significant; addition wraps modulo 32. */
  type Place = bv5

  function Bit(x: Word, i: Place): bv1 { ((x >> i) & 1) as bv1 }

  function Parity(p: bv1, q: bv1, r: bv1): bv1 { p ^ q ^ r }

  lemma ShiftXor(p: Word, q: Word, r: Word, i: Place)
    ensures (((p ^ q ^ r) >> i) & 1) as bv1 ==
      (((p >> i) & 1) as bv1) ^ (((q >> i) & 1) as bv1) ^ (((r >> i) & 1) as bv1)
  {
  }

  lemma BitOfXor(p: Word, q: Word, r: Word, i: Place)
    ensures Bit(p ^ q ^ r, i) == Bit(p, i) ^ Bit(q, i) ^ Bit(r, i)
  {
    ShiftXor(p, q, r, i);
  }

  lemma BitOfXorThree(p: Word, q: Word, r: Word, i: Place)
    ensures Bit(XorThree(p, q, r), i) == Bit(p, i) ^ Bit(q, i) ^ Bit(r, i)
  {
    BitOfXor(p, q, r, i);
  }

  lemma XorBit(p: Word, q: Word, r: Word, i: Place)
    ensures Bit(XorThree(p, q, r), i) == Parity(Bit(p, i), Bit(q, i), Bit(r, i))
  {
    BitOfXorThree(p, q, r, i);
  }

  lemma RotrBit2(x: Word, i: Place)
    ensures Bit(Rotr(x, 2), i) == Bit(x, i + 2)
  {
  }

  lemma RotrBit6(x: Word, i: Place)
    ensures Bit(Rotr(x, 6), i) == Bit(x, i + 6)
  {
  }

  lemma RotrBit7(x: Word, i: Place)
    ensures Bit(Rotr(x, 7), i) == Bit(x, i + 7)
  {
  }

  lemma RotrBit11(x: Word, i: Place)
    ensures Bit(Rotr(x, 11), i) == Bit(x, i + 11)
  {
  }

  lemma RotrBit13(x: Word, i: Place)
    ensures Bit(Rotr(x, 13), i) == Bit(x, i + 13)
  {
  }

  lemma RotrBit17(x: Word, i: Place)
    ensures Bit(Rotr(x, 17), i) == Bit(x, i + 17)
  {
  }

  lemma RotrBit18(x: Word, i: Place)
    ensures Bit(Rotr(x, 18), i) == Bit(x, i + 18)
  {
  }

  lemma RotrBit19(x: Word, i: Place)
    ensures Bit(Rotr(x, 19), i) == Bit(x, i + 19)
  {
  }

  lemma RotrBit22(x: Word, i: Place)
    ensures Bit(Rotr(x, 22), i) == Bit(x, i + 22)
  {
  }

  lemma RotrBit25(x: Word, i: Place)
    ensures Bit(Rotr(x, 25), i) == Bit(x, i + 25)
  {
  }

  lemma ShrBit3(x: Word, i: Place)
    ensures Bit(Shr(x, 3), i) == if i < 29 then Bit(x, i + 3) else 0
  {
  }

  lemma ShrBit10(x: Word, i: Place)
    ensures Bit(Shr(x, 10), i) == if i < 22 then Bit(x, i + 10) else 0
  {
  }

  // ----- sums and bytes -----

  lemma PlusOrder(p: Word, q: Word, r: Word, s: Word)
    ensures p + q + r + s == s + r + q + p
  {
  }

  /** The order of the four summands does not matter. */
  lemma AddFourReversed(p: Word, q: Word, r: Word, s: Word)
    ensures AddFour(p, q, r, s) == AddFour(s, r, q, p)
  {
    PlusOrder(p, q, r, s);
  }

  lemma NarrowByte(b: byte)
    ensures (b as bv8) as Word == b as Word
  {
  }

  lemma ByteWord(v: bv8)
    ensures (v as int) as Word == v as Word
  {
    NarrowByte(v as int);
    BitVectorThroughByte(v);
  }

  /** Reading back the four bytes of a word gives the word. */
  lemma WordBytesRoundTrip(w: Word)
    ensures var s := WordBytes(w); BigEndianWord(s[0], s[1], s[2], s[3]) == w
  {
    ByteWord(((w >> 24) & 0xff) as bv8);
    ByteWord(((w >> 16) & 0xff) as bv8);
    ByteWord(((w >> 8) & 0xff) as bv8);
    ByteWord((w & 0xff) as bv8);
  }
}
