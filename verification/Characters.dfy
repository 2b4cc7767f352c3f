/** The characters of DEF written out: which bytes are kept, lowercased and escaped, and how they read back. */
module Characters {
  import opened Bytes
  import opened Structure
  import Body
  import Component
  import NonCanonical
  import Utf8

  // ----- the two texts -----

  lemma LiteralText(b: byte)
    ensures IsLiteral(b) <==> b as char in "abcdefghijklmnopqrstuvwxyz0123456789"
  {
  }

  lemma UpperText(b: byte)
    ensures IsUpper(b) <==> b as char in "ABCDEFGHIJKLMNOPQRSTUVWXYZ"
  {
  }

  lemma HexText(n: nat)
    requires n < 16
    ensures Component.HexDigit(n) == "0123456789abcdef"[n] as int
  {
  }

  lemma HexValueText(c: byte)
    ensures Component.HexValue(c) >= 0 <==> c as char in "0123456789abcdef"
  {
  }

  lemma MarkerText(b: byte)
    ensures IsLiteral(b) || b == HYPHEN <==> b as char in "abcdefghijklmnopqrstuvwxyz0123456789-"
  {
  }

  // ----- encoding one byte -----

  /** The 26 capitals become the 26 small letters, in order. */
  lemma CapitalsAreLowered(i: nat)
    requires i < 26
    ensures Body.Encode([0x41 + i]) == [0x61 + i]
  {
    NonCanonical.EncodeOneByte(0x41 + i);
  }

  /** Exactly 36 characters stand for themselves. */
  lemma KeptCharacters(b: byte)
    ensures Body.Encode([b]) == [b] <==> b as char in "abcdefghijklmnopqrstuvwxyz0123456789"
  {
    NonCanonical.EncodeOneByte(b);
    LiteralText(b);
  }

  /** Every byte that is neither kept nor a capital becomes a hyphen and two hexadecimal digits. */
  lemma EscapedBytes(b: byte)
    requires b as char !in "abcdefghijklmnopqrstuvwxyz0123456789" && b as char !in "ABCDEFGHIJKLMNOPQRSTUVWXYZ"
    ensures Body.Encode([b]) == [0x2d, "0123456789abcdef"[b / 16] as int, "0123456789abcdef"[b % 16] as int]
  {
    NonCanonical.EncodeOneByte(b);
    LiteralText(b);
    UpperText(b);
    HexText(b / 16);
    HexText(b % 16);
  }

  /** An encoding is put together from those of single bytes, and a separator from itself. */
  lemma EncodedString(s: seq<byte>)
    ensures Body.Encode([]) == []
    ensures [0x2d, 0x2d] <= s ==> Body.Encode(s) == [0x2d, 0x2d] + Body.Encode(s[2..])
    ensures s != [] && !([0x2d, 0x2d] <= s) ==> Body.Encode(s) == Body.Encode([s[0]]) + Body.Encode(s[1..])
  {
    assert Body.EncodeEach([[]]) == [[]];
    if AtSeparator(s) {
      assert s == [0x2d, 0x2d] + s[2..];
      Body.EncodeAtSeparator(s);
    } else if s != [] {
      Body.EncodeAtPayload(s);
      NonCanonical.EncodeOneByte(s[0]);
    }
  }

  // ----- decoding one character and one escape -----

  lemma DecodeWhole(c: seq<byte>)
    requires NoSeparator(c)
    ensures Body.Decode(c) == Component.Decode(c)
  {
    SplitJoin([c]);
    assert Body.DecodeEach([c][1..]) == Body.Payloads([]);
  }

  /** The same 36 characters are the only ones that decode on their own. */
  lemma DecodedCharacters(b: byte)
    ensures Body.Decode([b]) ==
      if b as char in "abcdefghijklmnopqrstuvwxyz0123456789" then Success([b]) else Failure(InvalidEscape)
  {
    DecodeWhole([b]);
    LiteralText(b);
    if IsLiteral(b) {
      NonCanonical.PrintOne(Component.Lit(b));
      NonCanonical.AsciiIsValid([b]);
      assert Component.Payload([Component.Lit(b)]) == [b];
      NonCanonical.DecodeOfPrint([Component.Lit(b)]);
    }
  }

  lemma PrintedEscape(b: byte)
    ensures Body.Decode(Component.Print(Component.Esc(b))) == if b < 128 then Success([b]) else Failure(InvalidUtf8)
  {
    var t := Component.Esc(b);
    Component.PrintNoSeparator([t]);
    Component.ScanOfPrint([t]);
    NonCanonical.PrintOne(t);
    assert Component.Payload([t]) == [b];
    assert Utf8.Valid([b]) <==> b < 128;
    DecodeWhole(Component.Print(t));
  }

  /** An escape reads as the byte its two digits spell, which alone is valid UTF-8 below 128. */
  lemma DecodedEscape(b: byte)
    ensures Body.Decode([0x2d, "0123456789abcdef"[b / 16] as int, "0123456789abcdef"[b % 16] as int]) ==
      if b < 128 then Success([b]) else Failure(InvalidUtf8)
  {
    HexText(b / 16);
    HexText(b % 16);
    PrintedEscape(b);
  }

  /** Nothing else behind a hyphen is an escape; a second hyphen makes it a separator. */
  lemma MalformedEscape(a: byte, b: byte)
    requires a as char !in "0123456789abcdef" || b as char !in "0123456789abcdef"
    requires a != 0x2d
    ensures Body.Decode([0x2d, a, b]) == Failure(InvalidEscape)
  {
    HexValueText(a);
    HexValueText(b);
    DecodeWhole([0x2d, a, b]);
  }
}
