/** DEF bodies: component lists encoded and decoded through the structural layer,
    with the round trip, the grammar and the canonical image of the codec. */
module Body {
  import opened Bytes
  import opened Structure
  import Component
  import Utf8

  type Components = seq<seq<byte>>

  function EncodeEach(cs: Components): (es: Components)
    ensures |es| == |cs|
  {
    seq(|cs|, i requires 0 <= i < |cs| => Component.Encode(cs[i]))
  }

  /** Split, encode every component, join. */
  function Encode(s: seq<byte>): seq<byte> {
    Join(EncodeEach(Split(s)))
  }

  datatype Payloads = Payloads(list: Components) | Error(error: Status)

  /** Components decode from left to right; the first failure wins. */
  function DecodeEach(cs: Components): (r: Payloads)
    ensures r.Payloads? ==> |r.list| == |cs|
  {
    if cs == [] then Payloads([])
    else match Component.Decode(cs[0])
      case Failure(e) => Error(e)
      case Success(p) =>
        match DecodeEach(cs[1..])
        case Error(e) => Error(e)
        case Payloads(ps) => Payloads([p] + ps)
  }

  function Decode(s: seq<byte>): Result {
    match DecodeEach(Split(s))
    case Error(e) => Failure(e)
    case Payloads(ps) => Success(Join(ps))
  }

  lemma {:induction false} DecodeEachAt(cs: Components)
    ensures DecodeEach(cs).Payloads? <==> forall i | 0 <= i < |cs| :: Component.Decode(cs[i]).Success?
    ensures DecodeEach(cs).Payloads? ==>
      forall i | 0 <= i < |cs| :: Component.Decode(cs[i]) == Success(DecodeEach(cs).list[i])
  {
    if cs != [] {
      var rest := cs[1..];
      DecodeEachAt(rest);
      assert forall i | 0 <= i < |rest| :: rest[i] == cs[i + 1];
      assert (forall i | 0 <= i < |cs| :: Component.Decode(cs[i]).Success?) <==>
        Component.Decode(cs[0]).Success? && forall i | 0 <= i < |rest| :: Component.Decode(rest[i]).Success?
      by {
        assert forall i | 1 <= i < |cs| :: cs[i] == rest[i - 1];
      }
      if DecodeEach(cs).Payloads? {
        var ps := DecodeEach(rest).list;
        forall i | 0 <= i < |cs|
          ensures Component.Decode(cs[i]) == Success(([DecodeEach(cs).list[0]] + ps)[i])
        {
          if i > 0 {
            assert cs[i] == rest[i - 1];
          }
        }
      }
    }
  }

  /** Bodies fail to decode with one of two codes. */
  lemma DecodeErrors(s: seq<byte>)
    ensures Decode(s).Failure? ==> Decode(s).error == InvalidEscape || Decode(s).error == InvalidUtf8
  {
    ComponentErrors(Split(s));
  }

  lemma {:induction false} ComponentErrors(cs: Components)
    ensures DecodeEach(cs).Error? ==> DecodeEach(cs).error == InvalidEscape || DecodeEach(cs).error == InvalidUtf8
  {
    if cs != [] {
      ComponentErrors(cs[1..]);
    }
  }

  // ----- separators survive encoding -----

  lemma EncodeEachGreedy(cs: Components)
    requires |cs| > 0
    ensures Greedy(EncodeEach(cs))
  {
    forall i | 0 <= i < |cs|
      ensures NoSeparator(EncodeEach(cs)[i]) && !EndsInHyphen(EncodeEach(cs)[i])
    {
      Component.EncodeNoSeparator(cs[i]);
    }
  }

  /** Number, position and order of separators are those of the input, for any payload list. */
  lemma SplitOfJoinedEncodings(ps: Components)
    requires |ps| > 0
    ensures Split(Join(EncodeEach(ps))) == EncodeEach(ps)
  {
    EncodeEachGreedy(ps);
    SplitJoin(EncodeEach(ps));
  }

  lemma {:induction false} DecodeEncodeEach(ps: Components)
    ensures DecodeEach(EncodeEach(ps)) == if AllValid(ps) then Payloads(LowerEach(ps)) else Error(InvalidUtf8)
  {
    if ps != [] {
      Component.DecodeEncode(ps[0]);
      DecodeEncodeEach(ps[1..]);
      AllValidCons(ps);
      EachCons(ps);
    }
  }

  lemma EachCons(ps: Components)
    requires ps != []
    ensures EncodeEach(ps) == [Component.Encode(ps[0])] + EncodeEach(ps[1..])
    ensures LowerEach(ps) == [Lower(ps[0])] + LowerEach(ps[1..])
  {
  }

  lemma AllValidCons(ps: Components)
    requires ps != []
    ensures AllValid(ps) == (Utf8.Valid(ps[0]) && AllValid(ps[1..]))
  {
    assert forall i | 1 <= i < |ps| :: ps[i] == ps[1..][i - 1];
    assert forall i | 0 <= i < |ps[1..]| :: ps[1..][i] == ps[i + 1];
  }

  /** Callers who component-encode each payload and join get their structure back. */
  lemma StructuredRecovery(ps: Components)
    requires |ps| > 0 && AllValid(ps)
    ensures Split(Join(EncodeEach(ps))) == EncodeEach(ps)
    ensures DecodeEach(Split(Join(EncodeEach(ps)))) == Payloads(LowerEach(ps))
    ensures Decode(Join(EncodeEach(ps))) == Success(Join(LowerEach(ps)))
  {
    SplitOfJoinedEncodings(ps);
    DecodeEncodeEach(ps);
  }

  // ----- the round trip -----

  lemma SplitEncode(x: seq<byte>)
    ensures Split(Encode(x)) == EncodeEach(Split(x))
  {
    SplitOfJoinedEncodings(Split(x));
  }

  /** Decoding an encoding gives the ASCII-lowercased input, or rejects what is not UTF-8. */
  lemma RoundTrip(x: seq<byte>)
    ensures Decode(Encode(x)) == if Utf8.Valid(x) then Success(Lower(x)) else Failure(InvalidUtf8)
  {
    SplitEncode(x);
    DecodeEncodeEach(Split(x));
    SplitValid(x);
    LowerJoin(Split(x));
    JoinSplit(x);
  }

  /** Canonicalising the whole input first changes nothing. */
  lemma EncodeLower(x: seq<byte>)
    ensures Encode(Lower(x)) == Encode(x)
  {
    SplitLower(x);
    var cs := Split(x);
    forall i | 0 <= i < |cs|
      ensures Component.Encode(LowerEach(cs)[i]) == Component.Encode(cs[i])
    {
      Component.EncodeLower(cs[i]);
    }
    assert EncodeEach(LowerEach(cs)) == EncodeEach(cs);
  }

  lemma EncodeInjective(x: seq<byte>, y: seq<byte>)
    ensures Encode(x) == Encode(y) <==> Lower(x) == Lower(y)
  {
    EncodeLower(x);
    EncodeLower(y);
    if Encode(x) == Encode(y) {
      SplitEncode(x);
      SplitEncode(y);
      var cs, ds := Split(x), Split(y);
      assert |cs| == |ds|;
      forall i | 0 <= i < |cs|
        ensures Lower(cs[i]) == Lower(ds[i])
      {
        assert EncodeEach(cs)[i] == EncodeEach(ds)[i];
        Component.EncodeInjective(cs[i], ds[i]);
      }
      assert LowerEach(cs) == LowerEach(ds);
      LowerJoin(cs);
      LowerJoin(ds);
      JoinSplit(x);
      JoinSplit(y);
    }
  }

  // ----- the canonical image -----

  predicate IsHyphenEscape(t: Component.Token) {
    t == Component.Esc(HYPHEN)
  }

  predicate NoHyphenEscapePair(ts: seq<Component.Token>) {
    forall i | 0 <= i < |ts| - 1 :: !(IsHyphenEscape(ts[i]) && IsHyphenEscape(ts[i + 1]))
  }

  predicate EndsInHyphenEscape(ts: seq<Component.Token>) {
    |ts| > 0 && IsHyphenEscape(ts[|ts| - 1])
  }

  /** What a caller can read off the text of a body before decoding it. */
  predicate CanonicalBody(y: seq<byte>) {
    var cs := Split(y);
    && (forall i | 0 <= i < |cs| :: Component.CanonicalEscapes(cs[i]))
    && (forall i | 0 <= i < |cs| :: NoHyphenEscapePair(Component.Scan(cs[i]).tokens))
    && (forall i | 0 <= i < |cs| - 1 :: !EndsInHyphenEscape(Component.Scan(cs[i]).tokens))
  }

  lemma PayloadHyphens(ts: seq<Component.Token>)
    requires Component.AllTokens(ts)
    ensures NoSeparator(Component.Payload(ts)) == NoHyphenEscapePair(ts)
    ensures EndsInHyphen(Component.Payload(ts)) == EndsInHyphenEscape(ts)
  {
    var p := Component.Payload(ts);
    forall i | 0 <= i < |ts|
      ensures p[i] == HYPHEN <==> IsHyphenEscape(ts[i])
    {
      assert Component.IsToken(ts[i]);
    }
  }

  lemma PayloadsOf(cs: Components)
    requires DecodeEach(cs).Payloads?
    ensures forall i | 0 <= i < |cs| ::
      Component.Scan(cs[i]).complete && DecodeEach(cs).list[i] == Component.Payload(Component.Scan(cs[i]).tokens)
  {
    DecodeEachAt(cs);
    forall i | 0 <= i < |cs|
      ensures Component.Scan(cs[i]).complete
      ensures DecodeEach(cs).list[i] == Component.Payload(Component.Scan(cs[i]).tokens)
    {
      assert Component.Decode(cs[i]) == Success(DecodeEach(cs).list[i]);
    }
  }

  lemma CanonicalBodyForm(y: seq<byte>)
    requires DecodeEach(Split(y)).Payloads?
    ensures var cs, ps := Split(y), DecodeEach(Split(y)).list;
            CanonicalBody(y) <==> Greedy(ps) && forall i | 0 <= i < |cs| :: Component.CanonicalEscapes(cs[i])
  {
    var cs, ps := Split(y), DecodeEach(Split(y)).list;
    PayloadsOf(cs);
    forall i | 0 <= i < |cs|
      ensures NoSeparator(ps[i]) == NoHyphenEscapePair(Component.Scan(cs[i]).tokens)
      ensures EndsInHyphen(ps[i]) == EndsInHyphenEscape(Component.Scan(cs[i]).tokens)
    {
      Component.PrintOfScan(cs[i]);
      PayloadHyphens(Component.Scan(cs[i]).tokens);
    }
  }

  /** An accepted body is reproduced by re-encoding exactly when it is canonical. */
  lemma ReencodeIffCanonical(y: seq<byte>)
    requires Decode(y).Success?
    ensures Encode(Decode(y).value) == y <==> CanonicalBody(y)
  {
    var cs, ps := Split(y), DecodeEach(Split(y)).list;
    var z := Join(ps);
    CanonicalBodyForm(y);
    PayloadsOf(cs);
    forall i | 0 <= i < |cs|
      ensures Component.Encode(ps[i]) == cs[i] <==> Component.CanonicalEscapes(cs[i])
    {
      Component.ReencodeComponent(cs[i]);
    }
    if Encode(z) == y {
      SplitEncode(z);
      RecoveredPayloads(y, Split(z));
      SplitGreedy(z);
      LowerGreedy(Split(z));
      SplitJoin(ps);
      assert forall i | 0 <= i < |cs| :: cs[i] == EncodeEach(ps)[i];
    }
    if CanonicalBody(y) {
      SplitJoin(ps);
      assert EncodeEach(ps) == cs;
      JoinSplit(y);
    }
  }

  lemma RecoveredPayloads(y: seq<byte>, qs: Components)
    requires DecodeEach(Split(y)).Payloads? && Split(y) == EncodeEach(qs)
    ensures DecodeEach(Split(y)).list == LowerEach(qs)
  {
    DecodeEncodeEach(qs);
  }

  /** Re-encoding a decoded body reaches a fixed point after one step. */
  lemma ReencodeIdempotent(y: seq<byte>)
    requires Decode(y).Success?
    ensures var e := Encode(Decode(y).value);
            Decode(e).Success? && Encode(Decode(e).value) == e && CanonicalBody(e)
  {
    var x := Decode(y).value;
    DecodedValid(y);
    RoundTrip(x);
    EncodeLower(x);
    ReencodeIffCanonical(Encode(x));
  }

  lemma DecodedValid(y: seq<byte>)
    requires Decode(y).Success?
    ensures Utf8.Valid(Decode(y).value)
  {
    var cs, ps := Split(y), DecodeEach(Split(y)).list;
    DecodeEachAt(cs);
    forall i | 0 <= i < |ps|
      ensures Utf8.Valid(ps[i])
    {
      assert Component.Decode(cs[i]) == Success(ps[i]);
    }
    JoinValid(ps);
  }

  // ----- length -----

  /** Input bytes that are neither alphanumeric nor part of a greedy separator. */
  function Escaped(x: seq<byte>): nat {
    if x == [] then 0
    else if AtSeparator(x) then Escaped(x[2..])
    else (if IsLiteral(x[0]) || IsUpper(x[0]) then 0 else 1) + Escaped(x[1..])
  }

  lemma EncodeAtSeparator(x: seq<byte>)
    requires AtSeparator(x)
    ensures Encode(x) == SEPARATOR + Encode(x[2..])
  {
    var cs := Split(x[2..]);
    assert EncodeEach([[]] + cs) == [[]] + EncodeEach(cs);
    JoinEmptyFirst(EncodeEach(cs));
  }

  lemma EncodeAtPayload(x: seq<byte>)
    requires x != [] && !AtSeparator(x)
    ensures Encode(x) == Component.Print(Component.EncodeToken(x[0])) + Encode(x[1..])
  {
    var cs := Split(x[1..]);
    var p := Component.Print(Component.EncodeToken(x[0]));
    var c := [x[0]] + cs[0];
    Component.EncodeCons(c);
    assert c[1..] == cs[0];
    assert EncodeEach([c] + cs[1..]) == [p + EncodeEach(cs)[0]] + EncodeEach(cs)[1..];
    JoinPrepend(p, EncodeEach(cs));
  }

  /** The exact length of an encoding. */
  lemma {:induction false} EncodeLength(x: seq<byte>)
    ensures |Encode(x)| == |x| + 2 * Escaped(x)
    ensures Escaped(x) <= |x|
    decreases |x|
  {
    if x == [] {
      assert EncodeEach([[]]) == [[]];
    } else if AtSeparator(x) {
      EncodeAtSeparator(x);
      EncodeLength(x[2..]);
    } else {
      EncodeAtPayload(x);
      EncodeLength(x[1..]);
    }
  }
}
