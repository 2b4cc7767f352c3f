/** DEF-VALUE of section 7 as derivations, and a one-pass tokenizer that needs no
    prior splitting. Both are matched against the split-then-decode parser. */
module Grammar {
  import opened Bytes
  import opened Structure
  import Component
  import Body
  import Utf8

  type Token = Component.Token

  /** COMPONENT *(SEPARATOR COMPONENT), each component a list of tokens. */
  type Derivation = seq<seq<Token>>

  predicate WellFormed(d: Derivation) {
    |d| > 0 && forall i | 0 <= i < |d| :: Component.AllTokens(d[i])
  }

  function PrintEach(d: Derivation): Body.Components {
    seq(|d|, i requires 0 <= i < |d| => Component.PrintAll(d[i]))
  }

  function Print(d: Derivation): seq<byte>
    requires |d| > 0
  {
    Join(PrintEach(d))
  }

  function PayloadEach(d: Derivation): Body.Components {
    seq(|d|, i requires 0 <= i < |d| => Component.Payload(d[i]))
  }

  lemma SplitOfPrint(d: Derivation)
    requires WellFormed(d)
    ensures Split(Print(d)) == PrintEach(d)
  {
    forall i | 0 <= i < |d|
      ensures NoSeparator(PrintEach(d)[i]) && !EndsInHyphen(PrintEach(d)[i])
    {
      Component.PrintNoSeparator(d[i]);
    }
    SplitJoin(PrintEach(d));
  }

  /** No body has two derivations. */
  lemma Unambiguous(d: Derivation, e: Derivation)
    requires WellFormed(d) && WellFormed(e) && Print(d) == Print(e)
    ensures d == e
  {
    SplitOfPrint(d);
    SplitOfPrint(e);
    assert |PrintEach(d)| == |d| && |PrintEach(e)| == |e|;
    forall i | 0 <= i < |d|
      ensures d[i] == e[i]
    {
      assert Component.PrintAll(d[i]) == PrintEach(d)[i] == PrintEach(e)[i] == Component.PrintAll(e[i]);
      Component.PrintInjective(d[i], e[i]);
    }
  }

  predicate AllComplete(cs: Body.Components) {
    forall i | 0 <= i < |cs| :: Component.Scan(cs[i]).complete
  }

  function TokensEach(cs: Body.Components): (d: Derivation)
    ensures |d| == |cs|
  {
    seq(|cs|, i requires 0 <= i < |cs| => Component.Scan(cs[i]).tokens)
  }

  lemma TokensDerive(y: seq<byte>)
    requires AllComplete(Split(y))
    ensures WellFormed(TokensEach(Split(y))) && Print(TokensEach(Split(y))) == y
  {
    var cs := Split(y);
    var d := TokensEach(cs);
    forall i | 0 <= i < |cs|
      ensures Component.AllTokens(d[i]) && PrintEach(d)[i] == cs[i]
    {
      Component.PrintOfScan(cs[i]);
    }
    assert PrintEach(d) == cs;
    JoinSplit(y);
  }

  /** A derivation of an accepted body: a parse whose payloads are all valid UTF-8. */
  predicate Accepts(d: Derivation, y: seq<byte>) {
    WellFormed(d) && Print(d) == y && AllValid(PayloadEach(d))
  }

  /** The decoder accepts exactly the grammar's strings with valid payloads, and returns those payloads. */
  lemma DecodeIffGrammar(y: seq<byte>)
    ensures Body.Decode(y).Success? <==> exists d: Derivation :: Accepts(d, y)
    ensures forall d: Derivation :: Accepts(d, y) ==>
      Body.DecodeEach(Split(y)) == Body.Payloads(PayloadEach(d)) && Body.Decode(y) == Success(Join(PayloadEach(d)))
  {
    if Body.Decode(y).Success? {
      AcceptedHasDerivation(y);
    }
    forall d: Derivation | Accepts(d, y)
      ensures Body.DecodeEach(Split(y)) == Body.Payloads(PayloadEach(d))
    {
      DerivationDecodes(d);
    }
  }

  lemma AcceptedHasDerivation(y: seq<byte>)
    requires Body.Decode(y).Success?
    ensures Accepts(TokensEach(Split(y)), y)
  {
    var cs, ps := Split(y), Body.DecodeEach(Split(y)).list;
    var d := TokensEach(cs);
    Body.PayloadsOf(cs);
    TokensDerive(y);
    assert PayloadEach(d) == ps;
    Body.DecodeEachAt(cs);
    forall i | 0 <= i < |ps|
      ensures Utf8.Valid(ps[i])
    {
      assert Component.Decode(cs[i]) == Success(ps[i]);
    }
  }

  lemma DerivationDecodes(d: Derivation)
    requires WellFormed(d) && AllValid(PayloadEach(d))
    ensures Body.DecodeEach(Split(Print(d))) == Body.Payloads(PayloadEach(d))
  {
    SplitOfPrint(d);
    var cs := PrintEach(d);
    forall i | 0 <= i < |cs|
      ensures Component.Decode(cs[i]) == Success(PayloadEach(d)[i])
    {
      Component.ScanOfPrint(d[i]);
      assert Utf8.Valid(PayloadEach(d)[i]);
    }
    Body.DecodeEachAt(cs);
    assert Body.DecodeEach(cs).list == PayloadEach(d);
  }

  // ----- one pass -----

  datatype Parse = Parsed(d: Derivation) | NoParse

  function AddToken(t: Token, p: Parse): Parse {
    if p.Parsed? && |p.d| > 0 then Parsed([[t] + p.d[0]] + p.d[1..]) else NoParse
  }

  /** `-` then `-` is a separator, `-` then two digits an escape; nothing is looked at twice. */
  function SinglePass(y: seq<byte>): Parse {
    if y == [] then Parsed([[]])
    else if AtSeparator(y) then
      match SinglePass(y[2..])
      case Parsed(d) => Parsed([[]] + d)
      case NoParse => NoParse
    else if IsLiteral(y[0]) then AddToken(Component.Lit(y[0]), SinglePass(y[1..]))
    else if y[0] == HYPHEN && |y| >= 3 && Component.HexValue(y[1]) >= 0 && Component.HexValue(y[2]) >= 0 then
      AddToken(Component.Esc(Component.HexValue(y[1]) * 16 + Component.HexValue(y[2])), SinglePass(y[3..]))
    else NoParse
  }

  /** What split-then-scan gives, as a parse. */
  function SplitParse(cs: Body.Components): Parse {
    if AllComplete(cs) then Parsed(TokensEach(cs)) else NoParse
  }

  /** Tokenizing in one pass and splitting first always agree. */
  lemma {:induction false} SinglePassAgrees(y: seq<byte>)
    ensures SinglePass(y) == SplitParse(Split(y))
    decreases |y|
  {
    if y == [] {
      assert TokensEach([[]]) == [[]];
    } else if AtSeparator(y) {
      SinglePassAgrees(y[2..]);
      EmptyFirst(Split(y[2..]));
    } else if IsLiteral(y[0]) {
      SinglePassAgrees(y[1..]);
      TokenFirst(Component.Lit(y[0]), [y[0]], Split(y[1..]));
    } else if y[0] == HYPHEN && |y| >= 3 && Component.HexValue(y[1]) >= 0 && Component.HexValue(y[2]) >= 0 {
      SinglePassAgrees(y[3..]);
      SplitPastEscape(y);
      var t := Component.Esc(Component.HexValue(y[1]) * 16 + Component.HexValue(y[2]));
      TokenFirst(t, y[..3], Split(y[3..]));
    } else {
      MalformedFirst(y);
    }
  }

  lemma EmptyFirst(cs: Body.Components)
    requires |cs| > 0
    ensures SplitParse([[]] + cs) == if AllComplete(cs) then Parsed([[]] + TokensEach(cs)) else NoParse
  {
    var ds := [[]] + cs;
    assert forall i | 1 <= i < |ds| :: ds[i] == cs[i - 1];
    assert forall i | 0 <= i < |cs| :: cs[i] == ds[i + 1];
    if AllComplete(cs) {
      assert TokensEach(ds) == [[]] + TokensEach(cs);
    }
  }

  /** Prefixing the text of one token prefixes that token to the first component. */
  lemma TokenFirst(t: Token, p: seq<byte>, cs: Body.Components)
    requires |cs| > 0
    requires forall c: seq<byte> :: Component.Scan(p + c) == Component.Then(t, Component.Scan(c))
    ensures SplitParse([p + cs[0]] + cs[1..]) == AddToken(t, SplitParse(cs))
  {
    var ds := [p + cs[0]] + cs[1..];
    assert forall i | 1 <= i < |ds| :: ds[i] == cs[i];
    assert AllComplete(ds) == AllComplete(cs) by {
      assert Component.Scan(ds[0]).complete == Component.Scan(cs[0]).complete;
      if AllComplete(ds) {
        forall i | 0 <= i < |cs|
          ensures Component.Scan(cs[i]).complete
        {
          assert Component.Scan(ds[i]).complete;
        }
      }
    }
    if AllComplete(cs) {
      assert TokensEach(ds) == [[t] + TokensEach(cs)[0]] + TokensEach(cs)[1..];
    }
  }

  lemma SplitPastEscape(y: seq<byte>)
    requires |y| >= 3 && y[0] == HYPHEN && Component.HexValue(y[1]) >= 0 && Component.HexValue(y[2]) >= 0
    ensures Split(y) == [y[..3] + Split(y[3..])[0]] + Split(y[3..])[1..]
  {
    var cs := Split(y[3..]);
    assert y[2..][1..] == y[3..] && y[1..][1..] == y[2..];
    assert Split(y[2..]) == [[y[2]] + cs[0]] + cs[1..];
    assert Split(y[1..]) == [[y[1]] + ([y[2]] + cs[0])] + cs[1..];
    assert [y[0]] + ([y[1]] + ([y[2]] + cs[0])) == y[..3] + cs[0];
  }

  lemma MalformedFirst(y: seq<byte>)
    requires y != [] && !AtSeparator(y) && !IsLiteral(y[0])
    requires !(y[0] == HYPHEN && |y| >= 3 && Component.HexValue(y[1]) >= 0 && Component.HexValue(y[2]) >= 0)
    ensures SplitParse(Split(y)) == NoParse
  {
    var c := Split(y)[0];
    assert c[0] == y[0];
    if y[0] == HYPHEN && |c| >= 3 {
      FirstComponentPrefix(y);
      assert c[1] == y[1] && c[2] == y[2];
    }
    assert !Component.Scan(c).complete;
  }

  lemma {:induction false} FirstComponentPrefix(y: seq<byte>)
    ensures Split(y)[0] <= y
    decreases |y|
  {
    if y != [] && !AtSeparator(y) {
      FirstComponentPrefix(y[1..]);
      assert y == [y[0]] + y[1..];
    }
  }
}
