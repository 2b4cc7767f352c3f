/** What the C codec returns for a given output capacity: the first failure in the
    order in which the code meets them, and when there is none. */
module CapacitySpec {
  import opened Bytes
  import opened Structure
  import Component
  import Body
  import Utf8

  type Components = Body.Components

  // ----- one component -----

  function EncodeBytesStatus(bytes: seq<byte>, cap: nat): Status {
    if !Utf8.Valid(bytes) then InvalidUtf8
    else if |Component.Encode(bytes)| >= cap then BufferTooSmall
    else Ok
  }

  /** The scanner stops at the first malformed token or at the token that does not fit. */
  function DecodeBytesStatus(body: seq<byte>, cap: nat): Status {
    var r := Component.Scan(body);
    if |r.tokens| >= cap then BufferTooSmall
    else if !r.complete then InvalidEscape
    else if !Utf8.Valid(Component.Payload(r.tokens)) then InvalidUtf8
    else Ok
  }

  // ----- component lists -----

  function Room(used: nat, cap: nat): nat {
    if cap > used then cap - used else 0
  }

  function EncodeStatus(cs: Components, used: nat, cap: nat): Status
    requires |cs| > 0
  {
    var status := EncodeBytesStatus(cs[0], Room(used, cap));
    var used' := used + |Component.Encode(cs[0])|;
    if status != Ok || |cs| == 1 then status
    else if used' + 2 >= cap then BufferTooSmall
    else EncodeStatus(cs[1..], used' + 2, cap)
  }

  function DecodeStatus(cs: Components, used: nat, cap: nat): Status
    requires |cs| > 0 && used < cap
  {
    var status := DecodeBytesStatus(cs[0], cap - used);
    var used' := used + |Component.Scan(cs[0]).tokens|;
    if status != Ok || |cs| == 1 then status
    else if used' + 2 >= cap then BufferTooSmall
    else DecodeStatus(cs[1..], used' + 2, cap)
  }

  // ----- the capacity threshold is the length of the result -----

  lemma {:induction false} EncodeThreshold(cs: Components, used: nat, cap: nat)
    requires |cs| > 0
    ensures var fits := used + |Join(Body.EncodeEach(cs))| < cap;
            var status := EncodeStatus(cs, used, cap);
            && (status == Ok <==> AllValid(cs) && fits)
            && (AllValid(cs) && !fits ==> status == BufferTooSmall)
            && (!AllValid(cs) && fits ==> status == InvalidUtf8)
            && (status == Ok || status == InvalidUtf8 || status == BufferTooSmall)
  {
    Body.EachCons(cs);
    Body.AllValidCons(cs);
    if |cs| > 1 {
      var used' := used + |Component.Encode(cs[0])|;
      assert Body.EncodeEach(cs)[1..] == Body.EncodeEach(cs[1..]);
      EncodeThreshold(cs[1..], used' + 2, cap);
    }
  }

  /** A component decodes iff its payload fits; a malformed one is reported as such
      iff the tokens read before the fault fit, and as too long otherwise. */
  lemma DecodeBytesThreshold(c: seq<byte>, cap: nat)
    ensures DecodeBytesStatus(c, cap) ==
      if |Component.Scan(c).tokens| >= cap then BufferTooSmall
      else match Component.Decode(c)
        case Success(_) => Ok
        case Failure(e) => e
    ensures Component.Decode(c).Success? ==> |Component.Decode(c).value| == |Component.Scan(c).tokens|
    ensures |Component.Scan(c).tokens| <= |c|
  {
    ScanShrinks(c);
  }

  lemma {:induction false} ScanShrinks(c: seq<byte>)
    ensures |Component.Scan(c).tokens| <= |c|
    decreases |c|
  {
    if c == [] {
    } else if IsLiteral(c[0]) {
      ScanShrinks(c[1..]);
    } else if |c| >= 3 {
      ScanShrinks(c[3..]);
    }
  }

  lemma {:induction false} DecodeThreshold(cs: Components, used: nat, cap: nat)
    requires |cs| > 0 && used < cap
    ensures var r := Body.DecodeEach(cs);
            var status := DecodeStatus(cs, used, cap);
            && (status == Ok <==> r.Payloads? && used + |Join(r.list)| < cap)
            && (r.Payloads? && used + |Join(r.list)| >= cap ==> status == BufferTooSmall)
            && (r.Error? && used + |Join(cs)| < cap ==> status == r.error)
  {
    DecodeBytesThreshold(cs[0], cap - used);
    ScanShrinks(cs[0]);
    if |cs| == 1 {
      assert Body.DecodeEach(cs[1..]) == Body.Payloads([]);
    } else {
      var used' := used + |Component.Scan(cs[0]).tokens|;
      var r, rest := Body.DecodeEach(cs), Body.DecodeEach(cs[1..]);
      if r.Payloads? {
        assert r.list[1..] == rest.list;
      }
      if used' + 2 < cap {
        DecodeThreshold(cs[1..], used' + 2, cap);
      }
    }
  }

  // ----- which failure comes first -----

  /** The first component that is not UTF-8, or the number of components. */
  function FirstInvalid(cs: Components): (k: nat)
    ensures k <= |cs| && AllValid(cs[..k])
    ensures k < |cs| ==> !Utf8.Valid(cs[k])
  {
    if cs == [] || !Utf8.Valid(cs[0]) then 0
    else
      var k := 1 + FirstInvalid(cs[1..]);
      assert cs[..k] == [cs[0]] + cs[1..][..k - 1];
      k
  }

  /** The first component that does not decode, or the number of components. */
  function FirstFailing(cs: Components): (k: nat)
    ensures k <= |cs| && forall i | 0 <= i < k :: Component.Decode(cs[i]).Success?
    ensures k < |cs| ==> Component.Decode(cs[k]).Failure?
  {
    if cs == [] || Component.Decode(cs[0]).Failure? then 0 else 1 + FirstFailing(cs[1..])
  }

  function PayloadOf(c: seq<byte>): seq<byte> {
    Component.Payload(Component.Scan(c).tokens)
  }

  function PayloadEach(cs: Components): (ps: Components)
    ensures |ps| == |cs|
  {
    seq(|cs|, i requires 0 <= i < |cs| => PayloadOf(cs[i]))
  }

  /** Where the output of component `k` starts: behind the joined first `k` and a separator. */
  function Offset(outputs: Components, k: nat): nat
    requires k <= |outputs|
  {
    if k == 0 then 0 else |Join(outputs[..k])| + 2
  }

  lemma OffsetStep(outputs: Components, k: nat)
    requires 1 <= k <= |outputs|
    ensures Offset(outputs, k) == |outputs[0]| + 2 + Offset(outputs[1..], k - 1)
  {
    assert outputs[..k][1..] == outputs[1..][..k - 1];
  }

  function EncodeVerdict(cs: Components, used: nat, cap: nat): Status
    requires |cs| > 0
  {
    var k := FirstInvalid(cs);
    if k == |cs| then if used + |Join(Body.EncodeEach(cs))| < cap then Ok else BufferTooSmall
    else if k == 0 || used + Offset(Body.EncodeEach(cs), k) < cap then InvalidUtf8
    else BufferTooSmall
  }

  lemma {:induction false} EncodeStatusVerdict(cs: Components, used: nat, cap: nat)
    requires |cs| > 0
    ensures EncodeStatus(cs, used, cap) == EncodeVerdict(cs, used, cap)
  {
    var k, es := FirstInvalid(cs), Body.EncodeEach(cs);
    Body.EachCons(cs);
    assert es[1..] == Body.EncodeEach(cs[1..]);
    if |cs| > 1 && k > 0 {
      var used' := used + |es[0]| + 2;
      OffsetStep(es, k);
      if used' < cap {
        EncodeStatusVerdict(cs[1..], used', cap);
      }
    }
  }

  function DecodeVerdict(cs: Components, used: nat, cap: nat): Status
    requires |cs| > 0
  {
    var k, ps := FirstFailing(cs), PayloadEach(cs);
    if k == |cs| then if used + |Join(ps)| < cap then Ok else BufferTooSmall
    else if used + Offset(ps, k) + |ps[k]| < cap then Component.Decode(cs[k]).error
    else BufferTooSmall
  }

  lemma {:induction false} DecodeStatusVerdict(cs: Components, used: nat, cap: nat)
    requires |cs| > 0 && used < cap
    ensures DecodeStatus(cs, used, cap) == DecodeVerdict(cs, used, cap)
  {
    DecodeBytesThreshold(cs[0], cap - used);
    if |cs| > 1 && Component.Decode(cs[0]).Success? {
      var used' := used + |PayloadOf(cs[0])| + 2;
      DecodeVerdictStep(cs, used, cap);
      if used' < cap {
        DecodeStatusVerdict(cs[1..], used', cap);
      }
    }
  }

  /** A decodable first component only moves the start of the rest. */
  lemma DecodeVerdictStep(cs: Components, used: nat, cap: nat)
    requires |cs| > 1 && Component.Decode(cs[0]).Success?
    ensures var used' := used + |PayloadOf(cs[0])| + 2;
            DecodeVerdict(cs, used, cap) == if used' < cap then DecodeVerdict(cs[1..], used', cap) else BufferTooSmall
  {
    var ps := PayloadEach(cs);
    assert ps[1..] == PayloadEach(cs[1..]);
    OffsetStep(ps, FirstFailing(cs));
  }

  // ----- the public encoder and decoder of bodies -----

  function EncodeBodyStatus(input: seq<byte>, cap: nat): Status {
    EncodeStatus(Split(input), 0, cap)
  }

  function DecodeBodyStatus(body: seq<byte>, cap: nat): Status {
    if cap == 0 then BufferTooSmall else DecodeStatus(Split(body), 0, cap)
  }

  /** Encoding succeeds iff the input is UTF-8 and the capacity exceeds the encoded length.
      Invalid input is reported iff its first invalid component is reached with room to spare. */
  lemma EncodeBodyThreshold(input: seq<byte>, cap: nat)
    ensures var cs := Split(input);
            var k := FirstInvalid(cs);
            EncodeBodyStatus(input, cap) ==
              if Utf8.Valid(input) then if |Body.Encode(input)| < cap then Ok else BufferTooSmall
              else if k == 0 || |Join(Body.EncodeEach(cs)[..k])| + 2 < cap then InvalidUtf8
              else BufferTooSmall
    ensures Utf8.Valid(input) <==> FirstInvalid(Split(input)) == |Split(input)|
    ensures !Utf8.Valid(input) && |Body.Encode(input)| < cap ==> EncodeBodyStatus(input, cap) == InvalidUtf8
  {
    var cs := Split(input);
    EncodeThreshold(cs, 0, cap);
    EncodeStatusVerdict(cs, 0, cap);
    SplitValid(input);
    assert cs[..|cs|] == cs;
  }

  /** Decoding succeeds iff the body is valid and the capacity exceeds the decoded length.
      A failure is reported iff everything the scanner read before it fits. */
  lemma DecodeBodyThreshold(body: seq<byte>, cap: nat)
    ensures Body.Decode(body).Success? <==> FirstFailing(Split(body)) == |Split(body)|
    ensures var cs := Split(body);
            var k, ps := FirstFailing(cs), PayloadEach(cs);
            DecodeBodyStatus(body, cap) ==
              match Body.Decode(body)
              case Success(x) => if |x| < cap then Ok else BufferTooSmall
              case Failure(e) => if Offset(ps, k) + |ps[k]| < cap then e else BufferTooSmall
    ensures Body.Decode(body).Failure? && |body| < cap ==> DecodeBodyStatus(body, cap) == Body.Decode(body).error
  {
    var cs := Split(body);
    FirstFailingDecides(cs);
    if cap > 0 {
      DecodeStatusVerdict(cs, 0, cap);
      DecodeThreshold(cs, 0, cap);
      JoinSplit(body);
    }
  }

  lemma {:induction false} FirstFailingDecides(cs: Components)
    ensures var k := FirstFailing(cs);
            Body.DecodeEach(cs) ==
              if k == |cs| then Body.Payloads(PayloadEach(cs)) else Body.Error(Component.Decode(cs[k]).error)
  {
    if cs != [] {
      FirstFailingDecides(cs[1..]);
      assert PayloadEach(cs) == [PayloadOf(cs[0])] + PayloadEach(cs[1..]);
    }
  }

  /** The round trip through two buffers succeeds iff the input is UTF-8 and both are large enough. */
  lemma BufferRoundTrip(x: seq<byte>, encodeCap: nat, decodeCap: nat)
    ensures EncodeBodyStatus(x, encodeCap) == Ok && DecodeBodyStatus(Body.Encode(x), decodeCap) == Ok <==>
      Utf8.Valid(x) && |x| + 2 * Body.Escaped(x) < encodeCap && |x| < decodeCap
  {
    EncodeBodyThreshold(x, encodeCap);
    DecodeBodyThreshold(Body.Encode(x), decodeCap);
    Body.EncodeLength(x);
    Body.RoundTrip(x);
  }

  /** A buffer of 3n + 1 bytes is never too small, for the body or for the component form. */
  lemma TripleCapacitySuffices(input: seq<byte>, cap: nat)
    requires cap >= 3 * |input| + 1
    ensures EncodeBodyStatus(input, cap) == if Utf8.Valid(input) then Ok else InvalidUtf8
    ensures EncodeBytesStatus(input, cap) == if Utf8.Valid(input) then Ok else InvalidUtf8
  {
    EncodeBodyThreshold(input, cap);
    Body.EncodeLength(input);
    Component.EncodeLength(input);
    Component.EscapesBound(input);
  }
}
