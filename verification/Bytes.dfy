/** Byte strings, the ASCII classes of DEF, and the bridge between the byte
    masks the C code writes and the ranges they stand for. */
module Bytes {

  /** The status codes of the public header. */
  datatype Status =
    | Ok
    | LabelTooLong
    | InvalidEscape
    | InvalidUtf8
    | BufferTooSmall
    | InvalidEncoding
    | NotDecodable

  datatype Result = Success(value: seq<byte>) | Failure(error: Status)

  type byte = x: int | 0 <= x < 256

  const HYPHEN: byte := 0x2d
  const SEPARATOR: seq<byte> := [HYPHEN, HYPHEN]

  predicate IsLiteral(b: byte) {
    (b >= 0x61 && b <= 0x7a) || (b >= 0x30 && b <= 0x39)
  }

  predicate IsUpper(b: byte) {
    b >= 0x41 && b <= 0x5a
  }

  function LowerByte(b: byte): byte {
    if IsUpper(b) then b + 32 else b
  }

  /** ASCII canonicalisation: only `A` to `Z` change. */
  function Lower(s: seq<byte>): seq<byte> {
    seq(|s|, i requires 0 <= i < |s| => LowerByte(s[i]))
  }

  lemma LowerConcat(a: seq<byte>, b: seq<byte>)
    ensures Lower(a + b) == Lower(a) + Lower(b)
  {
  }

  /** The big-endian value of a byte string. */
  function Val256(s: seq<byte>): nat {
    if s == [] then 0 else Val256(s[..|s| - 1]) * 256 + s[|s| - 1]
  }

  lemma Val256Snoc(s: seq<byte>, j: nat)
    requires j < |s|
    ensures Val256(s[..j + 1]) == Val256(s[..j]) * 256 + s[j]
  {
    assert s[..j + 1][..j] == s[..j];
  }

  // ----- masks and ranges -----

  lemma BitVectorThroughByte(v: bv8)
    ensures (v as int) as bv8 == v
  {
  }

  lemma Successor(v: bv8)
    requires v < 255
    ensures (v + 1) as int == v as int + 1
  {
  }

  /** Every byte is the value of a bit vector. */
  lemma {:induction false} Preimage(b: byte) returns (v: bv8)
    ensures v as int == b
  {
    if b == 0 {
      v := 0;
    } else {
      v := Preimage(b - 1);
      Successor(v);
      v := v + 1;
    }
  }

  lemma ByteThroughBitVector(b: byte)
    ensures (b as bv8) as int == b
  {
    var v := Preimage(b);
    BitVectorThroughByte(v);
  }

  lemma BitVectorOrder(v: bv8, w: bv8)
    ensures (v < w) == (v as int < w as int)
  {
  }

  lemma LeadMasks(v: bv8)
    ensures (v & 0xe0 == 0xc0) == (0xc0 <= v < 0xe0)
    ensures (v & 0xf0 == 0xe0) == (0xe0 <= v < 0xf0)
    ensures (v & 0xf8 == 0xf0) == (0xf0 <= v < 0xf8)
    ensures (v & 0xc0 == 0x80) == (0x80 <= v < 0xc0)
  {
  }

  /** The four masks of the UTF-8 validator, as ranges of the byte's value. */
  lemma MaskRanges(b: byte)
    ensures ((b as bv8) & 0xe0 == 0xc0) == (0xc0 <= b < 0xe0)
    ensures ((b as bv8) & 0xf0 == 0xe0) == (0xe0 <= b < 0xf0)
    ensures ((b as bv8) & 0xf8 == 0xf0) == (0xf0 <= b < 0xf8)
    ensures ((b as bv8) & 0xc0 == 0x80) == (0x80 <= b < 0xc0)
  {
    var v := b as bv8;
    ByteThroughBitVector(b);
    LeadMasks(v);
    BitVectorOrder(v, 0x80); BitVectorOrder(v, 0xc0); BitVectorOrder(v, 0xe0);
    BitVectorOrder(v, 0xf0); BitVectorOrder(v, 0xf8);
  }

  /** The two nibbles the escape printer indexes its digit table with. */
  lemma Nibbles(b: byte)
    ensures (((b as bv8) >> 4) & 0x0f) as int == b / 16
    ensures ((b as bv8) & 0x0f) as int == b % 16
  {
    var v := b as bv8;
    ByteThroughBitVector(b);
    assert ((v >> 4) & 0x0f) == v >> 4;
    HighNibble(v);
    LowNibble(v);
  }

  lemma HighNibble(v: bv8)
    ensures (v >> 4) as int == v as int / 16
  {
  }

  lemma LowNibble(v: bv8)
    ensures (v & 0x0f) as int == v as int % 16
  {
  }
}
