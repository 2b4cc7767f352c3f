/** The scans of the other language ports, against the split, map and join of the body codec. */
module Ports {
  import opened Bytes
  import opened Structure
  import Body
  import CCodec
  import Component
  import Utf8

  // ----- Rust: canonicalisation in place -----

  method CanonicalizeInPlace(bytes: array<byte>)
    modifies bytes
    ensures bytes[..] == Lower(old(bytes[..]))
  {
    var i := 0;
    while i < bytes.Length
      invariant 0 <= i <= bytes.Length
      invariant forall k | 0 <= k < bytes.Length ::
        bytes[k] == if k < i then LowerByte(old(bytes[k])) else old(bytes[k])
    {
      if 0x41 <= bytes[i] && bytes[i] <= 0x5a {
        bytes[i] := bytes[i] + 32;
      }
      i := i + 1;
    }
  }

  // ----- encoding one component by appending -----

  /** The growing-string loop shared by the ports. */
  method EncodeComponent(input: seq<byte>) returns (out: seq<byte>)
    ensures out == Component.Encode(input)
  {
    out := [];
    var i := 0;
    while i < |input|
      invariant 0 <= i <= |input|
      invariant out == Component.Encode(input[..i])
    {
      CCodec.EncodeSnoc(input, i);
      var b := LowerByte(input[i]);
      if IsLiteral(b) {
        out := out + [b];
      } else {
        out := out + [HYPHEN, Component.HexDigit(b / 16), Component.HexDigit(b % 16)];
      }
      i := i + 1;
    }
    assert input[..|input|] == input;
  }

  // ----- Java: indexOf scanning -----

  /** `index` is the first separator at or after `from`, or -1 if there is none. */
  predicate NextSeparator(s: seq<byte>, from: nat, index: int) {
    if index == -1 then InComponent(s, from, |s|)
    else from <= index && index + 2 <= |s| && AtSeparator(s[index..]) && InComponent(s, from, index)
  }

  method IndexOfSeparator(s: seq<byte>, from: nat) returns (index: int)
    requires from <= |s|
    ensures NextSeparator(s, from, index)
  {
    var i := from;
    ComponentStart(s, from);
    while i < |s|
      invariant from <= i <= |s|
      invariant InComponent(s, from, i)
    {
      if i + 1 < |s| && s[i] == HYPHEN && s[i + 1] == HYPHEN {
        return i;
      }
      ComponentGrows(s, from, i);
      i := i + 1;
    }
    return -1;
  }

  /** Encoding `input` is `out`, then the encoding of what is left. */
  ghost predicate EncodeResumes(input: seq<byte>, out: seq<byte>, start: nat) {
    start <= |input| && Body.Encode(input) == out + Body.Encode(input[start..])
  }

  lemma EncodeResumeStart(input: seq<byte>)
    ensures EncodeResumes(input, [], 0)
  {
    assert input[0..] == input;
    assert [] + Body.Encode(input) == Body.Encode(input);
  }

  lemma EncodeResumeStep(input: seq<byte>, out: seq<byte>, start: nat, index: nat)
    requires EncodeResumes(input, out, start) && NextSeparator(input, start, index)
    ensures EncodeResumes(input, out + Component.Encode(input[start..index]) + SEPARATOR, index + 2)
  {
    ComponentEndsAtSeparator(input, start, index);
    var c, cs := input[start..index], Split(input[index + 2..]);
    CCodec.EncodeJoinStep(c, cs);
    PrependConcat(out, Component.Encode(c), SEPARATOR, Join(Body.EncodeEach(cs)));
  }

  lemma EncodeResumeEnd(input: seq<byte>, out: seq<byte>, start: nat)
    requires EncodeResumes(input, out, start) && NextSeparator(input, start, -1)
    ensures Body.Encode(input) == out + Component.Encode(input[start..])
  {
    ComponentEndsAtEnd(input, start);
    var c := input[start..];
    assert c == input[start..|input|];
    assert Body.EncodeEach([c]) == [Component.Encode(c)];
  }

  /** The two appends of one pass of the loop. */
  method AppendComponent(input: seq<byte>, out: seq<byte>, start: nat, index: nat) returns (out': seq<byte>)
    requires EncodeResumes(input, out, start) && NextSeparator(input, start, index)
    ensures EncodeResumes(input, out', index + 2)
  {
    EncodeResumeStep(input, out, start, index);
    var component := EncodeComponent(input[start..index]);
    out' := out + component;
    out' := out' + SEPARATOR;
  }

  method AppendLast(input: seq<byte>, out: seq<byte>, start: nat) returns (out': seq<byte>)
    requires EncodeResumes(input, out, start) && NextSeparator(input, start, -1)
    ensures out' == Body.Encode(input)
  {
    EncodeResumeEnd(input, out, start);
    var component := EncodeComponent(input[start..]);
    out' := out + component;
  }

  method JavaEncodeBody(input: seq<byte>) returns (out: seq<byte>)
    ensures out == Body.Encode(input)
  {
    out := [];
    var componentStart: nat := 0;
    EncodeResumeStart(input);
    var separator := IndexOfSeparator(input, componentStart);
    while separator >= 0
      invariant EncodeResumes(input, out, componentStart)
      invariant NextSeparator(input, componentStart, separator)
      decreases |input| - componentStart
    {
      out := AppendComponent(input, out, componentStart, separator);
      componentStart := separator + 2;
      separator := IndexOfSeparator(input, componentStart);
    }
    out := AppendLast(input, out, componentStart);
  }

  method JavaDecodeBody(body: seq<byte>) returns (r: Result)
    ensures r == Body.Decode(body)
  {
    var out: seq<byte> := [];
    var componentStart: nat := 0;
    ResumeStart(body);
    var separator := IndexOfSeparator(body, componentStart);
    while separator >= 0
      invariant componentStart <= |body|
      invariant Resumes(body, out, Split(body[componentStart..]))
      invariant NextSeparator(body, componentStart, separator)
      decreases |body| - componentStart
    {
      ResumeStep(body, out, componentStart, separator);
      var decoded := CheckedDecodeComponent(body[componentStart..separator]);
      if decoded.Failure? {
        return decoded;
      }
      out := out + decoded.value;
      out := out + SEPARATOR;
      componentStart := separator + 2;
      separator := IndexOfSeparator(body, componentStart);
    }
    ResumeEnd(body, out, componentStart);
    var last := CheckedDecodeComponent(body[componentStart..]);
    if last.Failure? {
      return last;
    }
    return Success(out + last.value);
  }

  /** Decoding `body` is what is left to do behind `out`. */
  ghost predicate Resumes(body: seq<byte>, out: seq<byte>, left: Body.Components) {
    && |left| > 0
    && Body.Decode(body) == match Body.DecodeEach(left)
                            case Error(e) => Failure(e)
                            case Payloads(ps) => Success(out + Join(ps))
  }

  lemma ResumeStart(body: seq<byte>)
    ensures Resumes(body, [], Split(body[0..]))
  {
    assert body[0..] == body;
    var r := Body.DecodeEach(Split(body));
    if r.Payloads? {
      assert [] + Join(r.list) == Join(r.list);
    }
  }

  lemma ResumeStep(body: seq<byte>, out: seq<byte>, start: nat, index: nat)
    requires start <= |body| && NextSeparator(body, start, index)
    requires Resumes(body, out, Split(body[start..]))
    ensures index + 2 <= |body|
    ensures match Component.Decode(body[start..index])
            case Failure(e) => Body.Decode(body) == Failure(e)
            case Success(p) => Resumes(body, out + p + SEPARATOR, Split(body[index + 2..]))
  {
    ComponentEndsAtSeparator(body, start, index);
    var c, cs := body[start..index], Split(body[index + 2..]);
    assert ([c] + cs)[1..] == cs;
    var d, r := Component.Decode(c), Body.DecodeEach(cs);
    if d.Success? && r.Payloads? {
      assert ([d.value] + r.list)[1..] == r.list;
      PrependConcat(out, d.value, SEPARATOR, Join(r.list));
    }
  }

  lemma ResumeEnd(body: seq<byte>, out: seq<byte>, start: nat)
    requires start <= |body| && NextSeparator(body, start, -1)
    requires Resumes(body, out, Split(body[start..]))
    ensures Body.Decode(body) == match Component.Decode(body[start..])
                                 case Failure(e) => Failure(e)
                                 case Success(p) => Success(out + p)
  {
    ComponentEndsAtEnd(body, start);
    var c := body[start..];
    assert c == body[start..|body|];
    assert Body.DecodeEach([c][1..]) == Body.Payloads([]);
  }

  // ----- decoding one component, without and with the explicit separator check -----

  /** The tokenizer alone: C, Go and Rust. */
  method DecodeComponent(component: seq<byte>) returns (r: Result)
    ensures r == Component.Decode(component)
  {
    var out: seq<byte> := [];
    var i := 0;
    ghost var ts: seq<Component.Token> := [];
    CCodec.ReadStart(component);
    while i < |component|
      invariant 0 <= i <= |component|
      invariant CCodec.Read(component, i, ts)
      invariant out == Component.Payload(ts)
    {
      var token, width := CCodec.ReadNext(component, i, ts);
      if width == 0 {
        return Failure(InvalidEscape);
      }
      out := out + [token.b];
      ts := ts + [token];
      i := i + width;
    }
    CCodec.ReadEnd(component, ts);
    var valid := Utf8.Validate(out);
    return if valid then Success(out) else Failure(InvalidUtf8);
  }

  /** With `--` rejected up front: JavaScript, Java and Python. */
  function CheckedDecode(c: seq<byte>): Result {
    if !NoSeparator(c) then Failure(InvalidEscape) else Component.Decode(c)
  }

  /** The check never changes the outcome: such a component fails in the tokenizer,
      and with the same code even if its bytes are not UTF-8. */
  lemma CheckIsRedundant(c: seq<byte>)
    ensures CheckedDecode(c) == Component.Decode(c)
    ensures !NoSeparator(c) ==> Component.Decode(c) == Failure(InvalidEscape)
  {
    if Component.Scan(c).complete {
      Component.CompleteNoSeparator(c);
    }
  }

  method CheckedDecodeComponent(component: seq<byte>) returns (r: Result)
    ensures r == Component.Decode(component)
  {
    CheckIsRedundant(component);
    if !NoSeparator(component) {
      return Failure(InvalidEscape);
    }
    r := DecodeComponent(component);
  }

  // ----- Go: the split components are overwritten in place -----

  method GoEncodeBody(input: seq<byte>) returns (out: seq<byte>)
    ensures out == Body.Encode(input)
  {
    var cs := Split(input);
    var components := new seq<byte>[|cs|](k requires 0 <= k < |cs| => cs[k]);
    EncodeInPlace(components);
    assert components[..] == Body.EncodeEach(cs);
    return Join(components[..]);
  }

  method EncodeInPlace(components: array<seq<byte>>)
    modifies components
    ensures components[..] == Body.EncodeEach(old(components[..]))
  {
    var i := 0;
    while i < components.Length
      invariant 0 <= i <= components.Length
      invariant forall k | 0 <= k < i :: components[k] == Component.Encode(old(components[k]))
      invariant forall k | i <= k < components.Length :: components[k] == old(components[k])
    {
      components[i] := EncodeComponent(components[i]);
      i := i + 1;
    }
  }

  method GoDecodeBody(body: seq<byte>) returns (r: Result)
    ensures r == Body.Decode(body)
  {
    var cs := Split(body);
    var components := new seq<byte>[|cs|](k requires 0 <= k < |cs| => cs[k]);
    var i := 0;
    while i < components.Length
      invariant 0 <= i <= components.Length
      invariant DecodedPrefix(cs, components[..i]) && components[i..] == cs[i..]
    {
      assert components[i] == components[i..][0] == cs[i];
      ghost var ps := components[..i];
      var decoded := DecodeComponent(components[i]);
      if decoded.Failure? {
        FirstFailure(cs, i);
        return decoded;
      }
      components[i] := decoded.value;
      assert components[..i + 1] == ps + [decoded.value];
      i := i + 1;
    }
    AllDecoded(cs, components[..]);
    return Success(Join(components[..]));
  }

  ghost predicate DecodedPrefix(cs: Body.Components, ps: Body.Components) {
    |ps| <= |cs| && forall k | 0 <= k < |ps| :: Component.Decode(cs[k]) == Success(ps[k])
  }

  lemma AllDecoded(cs: Body.Components, ps: Body.Components)
    requires |ps| == |cs| && DecodedPrefix(cs, ps)
    ensures Body.DecodeEach(cs) == Body.Payloads(ps)
  {
    Body.DecodeEachAt(cs);
    assert Body.DecodeEach(cs).list == ps;
  }

  lemma {:induction false} FirstFailure(cs: Body.Components, i: nat)
    requires i < |cs| && Component.Decode(cs[i]).Failure?
    requires forall k | 0 <= k < i :: Component.Decode(cs[k]).Success?
    ensures Body.DecodeEach(cs) == Body.Error(Component.Decode(cs[i]).error)
  {
    if i > 0 {
      assert forall k | 0 <= k < i - 1 :: cs[1..][k] == cs[k + 1];
      FirstFailure(cs[1..], i - 1);
    }
  }
}
