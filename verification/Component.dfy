/** One DEF component: the tokens of the grammar, the escape printer and the
    scanner that reads tokens back. */
module Component {
  import opened Bytes
  import opened Structure
  import Utf8

  // ----- tokens: LITERAL and ESCAPE of section 7 -----

  datatype Token = Lit(b: byte) | Esc(b: byte)

  predicate IsToken(t: Token) {
    t.Lit? ==> IsLiteral(t.b)
  }

  predicate AllTokens(ts: seq<Token>) {
    forall i | 0 <= i < |ts| :: IsToken(ts[i])
  }

  function HexDigit(n: nat): byte
    requires n < 16
  {
    if n < 10 then 0x30 + n else 0x57 + n
  }

  /** The value of a lowercase hexadecimal digit, or -1. */
  function HexValue(c: byte): int {
    if 0x30 <= c <= 0x39 then (c as int) - 0x30
    else if 0x61 <= c <= 0x66 then (c as int) - 0x61 + 10
    else -1
  }

  function Print(t: Token): seq<byte> {
    match t
    case Lit(b) => [b]
    case Esc(b) => [HYPHEN, HexDigit(b / 16), HexDigit(b % 16)]
  }

  function PrintAll(ts: seq<Token>): seq<byte> {
    if ts == [] then [] else Print(ts[0]) + PrintAll(ts[1..])
  }

  function Payload(ts: seq<Token>): (p: seq<byte>)
    ensures |p| == |ts|
  {
    seq(|ts|, i requires 0 <= i < |ts| => ts[i].b)
  }

  // ----- encoding -----

  function EncodeToken(b: byte): Token {
    var c := LowerByte(b);
    if IsLiteral(c) then Lit(c) else Esc(c)
  }

  function EncodeTokens(s: seq<byte>): (ts: seq<Token>)
    ensures |ts| == |s|
  {
    seq(|s|, i requires 0 <= i < |s| => EncodeToken(s[i]))
  }

  /** The representation of one component payload (section 5). */
  function Encode(s: seq<byte>): seq<byte> {
    PrintAll(EncodeTokens(s))
  }

  // ----- scanning -----

  /** The tokens read before the first malformed position, and whether there is none. */
  datatype Scanned = Scanned(tokens: seq<Token>, complete: bool)

  function Scan(s: seq<byte>): Scanned {
    if s == [] then Scanned([], true)
    else if IsLiteral(s[0]) then Then(Lit(s[0]), Scan(s[1..]))
    else if s[0] == HYPHEN && |s| >= 3 && HexValue(s[1]) >= 0 && HexValue(s[2]) >= 0 then
      Then(Esc(HexValue(s[1]) * 16 + HexValue(s[2])), Scan(s[3..]))
    else Scanned([], false)
  }

  function Then(t: Token, r: Scanned): Scanned {
    Scanned([t] + r.tokens, r.complete)
  }

  /** Decoding of one component: tokens first, then strict UTF-8. */
  function Decode(s: seq<byte>): Result {
    var r := Scan(s);
    if !r.complete then Failure(InvalidEscape)
    else if !Utf8.Valid(Payload(r.tokens)) then Failure(InvalidUtf8)
    else Success(Payload(r.tokens))
  }

  // ----- the component grammar is unambiguous and the scanner reads it -----

  lemma ScanPrintOne(t: Token, rest: seq<byte>)
    requires IsToken(t)
    ensures Scan(Print(t) + rest) == Then(t, Scan(rest))
  {
    var s := Print(t) + rest;
    match t
    case Lit(b) =>
      assert s[1..] == rest;
    case Esc(b) =>
      assert s[0] == HYPHEN && s[1] == HexDigit(b / 16) && s[2] == HexDigit(b % 16);
      assert s[3..] == rest;
  }

  lemma ConcatAssociates<T>(p: seq<T>, q: seq<T>, r: seq<T>)
    ensures (p + q) + r == p + (q + r)
  {
  }

  lemma {:induction false} ScanPrint(ts: seq<Token>, rest: seq<byte>)
    requires AllTokens(ts)
    ensures Scan(PrintAll(ts) + rest) == Scanned(ts + Scan(rest).tokens, Scan(rest).complete)
  {
    var us := Scan(rest).tokens;
    if ts == [] {
      assert PrintAll(ts) + rest == rest;
      assert ts + us == us;
    } else {
      ConcatAssociates(Print(ts[0]), PrintAll(ts[1..]), rest);
      ScanPrintOne(ts[0], PrintAll(ts[1..]) + rest);
      ScanPrint(ts[1..], rest);
      ConcatAssociates([ts[0]], ts[1..], us);
      assert [ts[0]] + ts[1..] == ts;
    }
  }

  lemma ScanOfPrint(ts: seq<Token>)
    requires AllTokens(ts)
    ensures Scan(PrintAll(ts)) == Scanned(ts, true)
  {
    ScanPrint(ts, []);
    assert PrintAll(ts) + [] == PrintAll(ts);
  }

  lemma {:induction false} PrintOfScan(s: seq<byte>)
    ensures AllTokens(Scan(s).tokens)
    ensures Scan(s).complete ==> PrintAll(Scan(s).tokens) == s
    decreases |s|
  {
    if s == [] {
    } else if IsLiteral(s[0]) {
      PrintOfScan(s[1..]);
    } else if s[0] == HYPHEN && |s| >= 3 && HexValue(s[1]) >= 0 && HexValue(s[2]) >= 0 {
      PrintOfScan(s[3..]);
      if Scan(s).complete {
        assert Scan(s).tokens[1..] == Scan(s[3..]).tokens;
        assert s == s[..3] + s[3..];
      }
    }
  }

  lemma PrintInjective(ts: seq<Token>, us: seq<Token>)
    requires AllTokens(ts) && AllTokens(us) && PrintAll(ts) == PrintAll(us)
    ensures ts == us
  {
    ScanOfPrint(ts);
    ScanOfPrint(us);
  }

  /** A string is a COMPONENT exactly when the scanner completes on it. */
  lemma ComponentGrammar(s: seq<byte>)
    ensures Scan(s).complete <==> exists ts: seq<Token> :: AllTokens(ts) && PrintAll(ts) == s
    ensures forall ts: seq<Token> :: AllTokens(ts) && PrintAll(ts) == s ==> ts == Scan(s).tokens
  {
    PrintOfScan(s);
    forall ts: seq<Token> | AllTokens(ts) && PrintAll(ts) == s
      ensures Scan(s) == Scanned(ts, true)
    {
      ScanOfPrint(ts);
    }
  }

  /** The first code is for text outside the grammar, the second for payloads that are not UTF-8. */
  lemma DecodeErrors(s: seq<byte>)
    ensures Decode(s) == Failure(InvalidEscape) <==> !exists ts: seq<Token> :: AllTokens(ts) && PrintAll(ts) == s
    ensures Decode(s) == Failure(InvalidUtf8) <==>
      exists ts: seq<Token> :: AllTokens(ts) && PrintAll(ts) == s && !Utf8.Valid(Payload(ts))
  {
    ComponentGrammar(s);
  }

  /** The tokens scanned are the longest run of tokens that `s` starts with. */
  lemma ScanMaximal(s: seq<byte>)
    ensures PrintAll(Scan(s).tokens) <= s
    ensures forall ts: seq<Token> :: AllTokens(ts) && PrintAll(ts) <= s ==> ts <= Scan(s).tokens
  {
    PrintedPrefix(s);
    forall ts: seq<Token> | AllTokens(ts) && PrintAll(ts) <= s
      ensures ts <= Scan(s).tokens
    {
      var rest := s[|PrintAll(ts)|..];
      assert s == PrintAll(ts) + rest;
      ScanPrint(ts, rest);
    }
  }

  lemma {:induction false} PrintedPrefix(s: seq<byte>)
    ensures PrintAll(Scan(s).tokens) <= s
    decreases |s|
  {
    if s == [] {
    } else if IsLiteral(s[0]) {
      PrintedPrefix(s[1..]);
      assert Scan(s).tokens[1..] == Scan(s[1..]).tokens;
      assert s == [s[0]] + s[1..];
    } else if s[0] == HYPHEN && |s| >= 3 && HexValue(s[1]) >= 0 && HexValue(s[2]) >= 0 {
      PrintedPrefix(s[3..]);
      assert Scan(s).tokens[1..] == Scan(s[3..]).tokens;
      assert s == s[..3] + s[3..];
    }
  }

  // ----- round trip, canonical forms, injectivity -----

  lemma EncodeTokensAreTokens(s: seq<byte>)
    ensures AllTokens(EncodeTokens(s)) && Payload(EncodeTokens(s)) == Lower(s)
  {
  }

  /** Decoding a component encoding gives the lowercased payload, for valid and invalid UTF-8. */
  lemma DecodeEncode(s: seq<byte>)
    ensures Scan(Encode(s)).complete && Payload(Scan(Encode(s)).tokens) == Lower(s)
    ensures Decode(Encode(s)) == if Utf8.Valid(s) then Success(Lower(s)) else Failure(InvalidUtf8)
  {
    EncodeTokensAreTokens(s);
    ScanOfPrint(EncodeTokens(s));
    Utf8.LowerValid(s);
  }

  lemma EncodeLower(s: seq<byte>)
    ensures Encode(Lower(s)) == Encode(s)
  {
    assert EncodeTokens(Lower(s)) == EncodeTokens(s);
  }

  lemma EncodeInjective(x: seq<byte>, y: seq<byte>)
    ensures Encode(x) == Encode(y) <==> Lower(x) == Lower(y)
  {
    DecodeEncode(x);
    DecodeEncode(y);
    EncodeLower(x);
    EncodeLower(y);
  }

  /** An escape is canonical when the encoder would escape the byte it denotes. */
  predicate CanonicalToken(t: Token) {
    t.Esc? ==> !IsLiteral(t.b) && !IsUpper(t.b)
  }

  predicate CanonicalEscapes(s: seq<byte>) {
    forall i | 0 <= i < |Scan(s).tokens| :: CanonicalToken(Scan(s).tokens[i])
  }

  /** A component is what the encoder prints for its payload iff its escapes are canonical. */
  lemma ReencodeComponent(s: seq<byte>)
    requires Scan(s).complete
    ensures Encode(Payload(Scan(s).tokens)) == s <==> CanonicalEscapes(s)
  {
    var ts := Scan(s).tokens;
    var us := EncodeTokens(Payload(ts));
    PrintOfScan(s);
    EncodeTokensAreTokens(Payload(ts));
    forall i | 0 <= i < |ts|
      ensures us[i] == ts[i] <==> CanonicalToken(ts[i])
    {
      assert IsToken(ts[i]);
    }
    if PrintAll(us) == s {
      PrintInjective(us, ts);
    }
    if CanonicalEscapes(s) {
      assert us == ts;
    }
  }

  // ----- separators and components -----

  lemma PrintShape(t: Token)
    requires IsToken(t)
    ensures |Print(t)| > 0 && Print(t)[|Print(t)| - 1] != HYPHEN
    ensures forall i | 1 <= i < |Print(t)| :: Print(t)[i] != HYPHEN
  {
  }

  /** A printed component holds no `--` and does not end in `-`. */
  lemma {:induction false} PrintNoSeparator(ts: seq<Token>)
    requires AllTokens(ts)
    ensures NoSeparator(PrintAll(ts)) && !EndsInHyphen(PrintAll(ts))
  {
    if ts != [] {
      PrintShape(ts[0]);
      PrintNoSeparator(ts[1..]);
      var p, q := Print(ts[0]), PrintAll(ts[1..]);
      assert forall i | 0 <= i < |p| :: (p + q)[i] == p[i];
      assert forall i | |p| <= i < |p + q| :: (p + q)[i] == q[i - |p|];
    }
  }

  lemma EncodeNoSeparator(s: seq<byte>)
    ensures NoSeparator(Encode(s)) && !EndsInHyphen(Encode(s))
  {
    EncodeTokensAreTokens(s);
    PrintNoSeparator(EncodeTokens(s));
  }

  /** Every component the scanner completes on is free of separators. */
  lemma CompleteNoSeparator(s: seq<byte>)
    requires Scan(s).complete
    ensures NoSeparator(s) && !EndsInHyphen(s)
  {
    PrintOfScan(s);
    PrintNoSeparator(Scan(s).tokens);
  }

  // ----- length -----

  function Escapes(s: seq<byte>): nat {
    if s == [] then 0 else (if IsLiteral(LowerByte(s[0])) then 0 else 1) + Escapes(s[1..])
  }

  lemma {:induction false} EncodeLength(s: seq<byte>)
    ensures |Encode(s)| == |s| + 2 * Escapes(s)
  {
    if s != [] {
      EncodeCons(s);
      EncodeLength(s[1..]);
    }
  }

  lemma EncodeCons(s: seq<byte>)
    requires s != []
    ensures Encode(s) == Print(EncodeToken(s[0])) + Encode(s[1..])
  {
    assert EncodeTokens(s)[1..] == EncodeTokens(s[1..]);
  }

  lemma {:induction false} EscapesBound(s: seq<byte>)
    ensures Escapes(s) <= |s|
  {
    if s != [] {
      EscapesBound(s[1..]);
    }
  }
}
