/** Accepted bodies that re-encoding does not reproduce, one for each way to miss the canonical form. */
module NonCanonical {
  import opened Bytes
  import opened Structure
  import Body
  import Component
  import Grammar
  import Utf8

  type Token = Component.Token

  /** A printed token list is a body of one component and decodes to its payload. */
  lemma DecodeOfPrint(ts: seq<Token>)
    requires Component.AllTokens(ts) && Utf8.Valid(Component.Payload(ts))
    ensures Body.Decode(Component.PrintAll(ts)) == Success(Component.Payload(ts))
  {
    Grammar.DerivationDecodes([ts]);
    assert Grammar.PrintEach([ts]) == [Component.PrintAll(ts)];
    assert Grammar.PayloadEach([ts]) == [Component.Payload(ts)];
  }

  lemma PrintOne(t: Token)
    ensures Component.PrintAll([t]) == Component.Print(t)
  {
    assert Component.Print(t) + [] == Component.Print(t);
  }

  lemma PrintTwo(t: Token, u: Token)
    ensures Component.PrintAll([t, u]) == Component.Print(t) + Component.Print(u)
  {
    PrintOne(u);
    assert [t, u][1..] == [u];
  }

  lemma AsciiIsValid(s: seq<byte>)
    requires forall i | 0 <= i < |s| :: s[i] < 0x80
    ensures Utf8.Valid(s)
  {
    Utf8.AsciiValid(s, []);
    assert s + [] == s;
  }

  lemma EncodeOneByte(b: byte)
    ensures Body.Encode([b]) == Component.Print(Component.EncodeToken(b))
  {
    Body.EncodeAtPayload([b]);
    assert Body.EncodeEach([[]]) == [[]];
  }

  /** `-41` decodes to `A`, which encodes to `a`. */
  lemma EscapedCapital()
    ensures var y := [0x2d, 0x34, 0x31];
            Body.Decode(y) == Success([0x41]) && Body.Encode([0x41]) == [0x61] && !Body.CanonicalBody(y)
  {
    var t := Component.Esc(0x41);
    var y: seq<byte> := [0x2d, 0x34, 0x31];
    PrintOne(t);
    AsciiIsValid([0x41]);
    assert Component.Payload([t]) == [0x41];
    DecodeOfPrint([t]);
    EncodeOneByte(0x41);
    Body.ReencodeIffCanonical(y);
  }

  /** `-2d-2d` decodes to `--`, which encodes to a separator. */
  lemma EscapedSeparator()
    ensures var y := [0x2d, 0x32, 0x64, 0x2d, 0x32, 0x64];
            Body.Decode(y) == Success(SEPARATOR) && Body.Encode(SEPARATOR) == SEPARATOR && !Body.CanonicalBody(y)
  {
    var t := Component.Esc(HYPHEN);
    var y: seq<byte> := [0x2d, 0x32, 0x64, 0x2d, 0x32, 0x64];
    PrintTwo(t, t);
    assert Component.PrintAll([t, t]) == y;
    AsciiIsValid(SEPARATOR);
    assert Component.Payload([t, t]) == SEPARATOR;
    DecodeOfPrint([t, t]);
    Body.EncodeAtSeparator(SEPARATOR);
    assert Body.EncodeEach([[]]) == [[]];
    Body.ReencodeIffCanonical(y);
  }

  lemma JoinTwo(a: seq<byte>, b: seq<byte>)
    ensures Join([a, b]) == a + SEPARATOR + b
  {
    assert [a, b][1..] == [b];
  }

  /** Two printed components decode side by side. */
  lemma DecodeTwo(ts: seq<Token>, us: seq<Token>)
    requires Component.AllTokens(ts) && Utf8.Valid(Component.Payload(ts))
    requires Component.AllTokens(us) && Utf8.Valid(Component.Payload(us))
    ensures Body.Decode(Component.PrintAll(ts) + SEPARATOR + Component.PrintAll(us)) ==
      Success(Component.Payload(ts) + SEPARATOR + Component.Payload(us))
  {
    assert Grammar.PrintEach([ts, us]) == [Component.PrintAll(ts), Component.PrintAll(us)];
    assert Grammar.PayloadEach([ts, us]) == [Component.Payload(ts), Component.Payload(us)];
    Grammar.DerivationDecodes([ts, us]);
    JoinTwo(Component.PrintAll(ts), Component.PrintAll(us));
    JoinTwo(Component.Payload(ts), Component.Payload(us));
  }

  lemma DecodeShifted()
    ensures Body.Decode([0x61, 0x2d, 0x32, 0x64] + SEPARATOR + [0x62]) == Success([0x61, 0x2d] + SEPARATOR + [0x62])
  {
    var a, h, b := Component.Lit(0x61), Component.Esc(HYPHEN), Component.Lit(0x62);
    PrintTwo(a, h);
    PrintOne(b);
    assert Component.PrintAll([a, h]) == [0x61, 0x2d, 0x32, 0x64] && Component.Payload([a, h]) == [0x61, 0x2d];
    assert Component.PrintAll([b]) == [0x62] && Component.Payload([b]) == [0x62];
    AsciiIsValid([0x61, 0x2d]);
    AsciiIsValid([0x62]);
    DecodeTwo([a, h], [b]);
  }

  /** `a-2d--b` decodes to `a---b`, where the separator comes one byte earlier: it encodes to `a---2db`. */
  lemma EscapedHyphenBeforeSeparator()
    ensures var y := [0x61, 0x2d, 0x32, 0x64] + SEPARATOR + [0x62];
            var x := [0x61, 0x2d] + SEPARATOR + [0x62];
            && Body.Decode(y) == Success(x)
            && Body.Encode(x) == [0x61, 0x2d, 0x2d, 0x2d, 0x32, 0x64, 0x62]
            && !Body.CanonicalBody(y)
  {
    DecodeShifted();
    EncodeShifted();
    var y := [0x61, 0x2d, 0x32, 0x64] + SEPARATOR + [0x62];
    Body.ReencodeIffCanonical(y);
    assert y[2] == 0x32;
  }

  lemma EncodeShifted()
    ensures Body.Encode([0x61, 0x2d] + SEPARATOR + [0x62]) == [0x61, 0x2d, 0x2d, 0x2d, 0x32, 0x64, 0x62]
  {
    var x: seq<byte> := [0x61, 0x2d] + SEPARATOR + [0x62];
    Body.EncodeAtPayload(x);
    assert x[1..][2..] == [0x2d, 0x62] && [0x2d, 0x62][1..] == [0x62];
    Body.EncodeAtSeparator(x[1..]);
    Body.EncodeAtPayload([0x2d, 0x62]);
    EncodeOneByte(0x62);
  }
}
