/** The escape codec of the C library: index scans writing into a bounded buffer. */
module CCodec {
  import opened Bytes
  import opened Memory
  import opened Structure
  import opened CapacitySpec
  import Component
  import Body
  import Utf8

  const HEX_ENCODE: seq<byte> := [
    0x30, 0x31, 0x32, 0x33, 0x34, 0x35, 0x36, 0x37, 0x38, 0x39, 0x61, 0x62, 0x63, 0x64, 0x65, 0x66]

  lemma HexTable(n: nat)
    requires n < 16
    ensures HEX_ENCODE[n] == Component.HexDigit(n)
  {
  }

  // ----- appending -----

  method AppendBodyChar(output: array<byte>, off: nat, len: SizeRef, cap: nat, ch: byte) returns (status: Status)
    requires off + cap <= output.Length && len.value <= cap
    modifies output, len
    ensures OnlyWithin(output, off, cap)
    ensures status == if old(len.value) + 1 >= cap then BufferTooSmall else Ok
    ensures status == Ok ==>
      && len.value == old(len.value) + 1
      && output[off..off + len.value] == old(output[off..off + len.value]) + [ch]
      && OnlyWithin(output, off + old(len.value), 1)
    ensures status != Ok ==> len.value == old(len.value) && output[..] == old(output[..])
  {
    if len.value + 1 >= cap {
      return BufferTooSmall;
    }
    output[off + len.value] := ch;
    len.value := len.value + 1;
    return Ok;
  }

  /** The two digits, looked up by nibble. */
  method HexChars(b: byte) returns (hi: byte, lo: byte)
    ensures Component.Print(Component.Esc(b)) == [HYPHEN, hi, lo]
  {
    Nibbles(b);
    HexTable(b / 16);
    HexTable(b % 16);
    hi := HEX_ENCODE[(((b as bv8) >> 4) & 0x0f) as int];
    lo := HEX_ENCODE[((b as bv8) & 0x0f) as int];
  }

  method AppendBodyEscape(output: array<byte>, off: nat, len: SizeRef, cap: nat, b: byte) returns (status: Status)
    requires off + cap <= output.Length && len.value <= cap
    modifies output, len
    ensures OnlyWithin(output, off, cap)
    ensures status == if old(len.value) + 3 >= cap then BufferTooSmall else Ok
    ensures status == Ok ==>
      && len.value == old(len.value) + 3
      && output[off..off + len.value] == old(output[off..off + len.value]) + Component.Print(Component.Esc(b))
      && OnlyWithin(output, off + old(len.value), 3)
    ensures status != Ok ==> len.value == old(len.value) && output[..] == old(output[..])
  {
    if len.value + 3 >= cap {
      return BufferTooSmall;
    }
    var hi, lo := HexChars(b);
    ghost var before := output[off..off + len.value];
    output[off + len.value] := HYPHEN;
    output[off + len.value + 1] := hi;
    output[off + len.value + 2] := lo;
    assert output[off..off + len.value + 3] == before + [HYPHEN, hi, lo];
    len.value := len.value + 3;
    return Ok;
  }

  /** The body of the encoding loop: lowercase, then literal or escape. */
  method AppendByte(output: array<byte>, off: nat, len: SizeRef, cap: nat, input: byte) returns (status: Status)
    requires off + cap <= output.Length && len.value <= cap
    modifies output, len
    ensures OnlyWithin(output, off, cap)
    ensures var p := Component.Print(Component.EncodeToken(input));
            && status == (if old(len.value) + |p| >= cap then BufferTooSmall else Ok)
            && (status == Ok ==>
                 && len.value == old(len.value) + |p|
                 && output[off..off + len.value] == old(output[off..off + len.value]) + p)
    ensures status != Ok ==> len.value == old(len.value)
  {
    var b := input;
    if b >= 0x41 && b <= 0x5a {
      b := b + 32;
    }
    if IsLiteral(b) {
      status := AppendBodyChar(output, off, len, cap, b);
    } else {
      status := AppendBodyEscape(output, off, len, cap, b);
    }
  }

  // ----- one component -----

  lemma {:induction false} PrintAllConcat(ts: seq<Component.Token>, us: seq<Component.Token>)
    ensures Component.PrintAll(ts + us) == Component.PrintAll(ts) + Component.PrintAll(us)
  {
    if ts == [] {
      assert ts + us == us;
    } else {
      assert (ts + us)[1..] == ts[1..] + us;
      PrintAllConcat(ts[1..], us);
    }
  }

  lemma EncodeConcat(s: seq<byte>, t: seq<byte>)
    ensures Component.Encode(s + t) == Component.Encode(s) + Component.Encode(t)
  {
    assert Component.EncodeTokens(s + t) == Component.EncodeTokens(s) + Component.EncodeTokens(t);
    PrintAllConcat(Component.EncodeTokens(s), Component.EncodeTokens(t));
  }

  /** The encoding of one more byte extends the encoding of the bytes before it. */
  lemma EncodeSnoc(s: seq<byte>, i: nat)
    requires i < |s|
    ensures Component.Encode(s[..i + 1]) == Component.Encode(s[..i]) + Component.Print(Component.EncodeToken(s[i]))
    ensures |Component.Encode(s[..i + 1])| <= |Component.Encode(s)|
  {
    assert s[..i + 1] == s[..i] + [s[i]];
    EncodeConcat(s[..i], [s[i]]);
    EncodeOne(s[i]);
    assert s == s[..i + 1] + s[i + 1..];
    EncodeConcat(s[..i + 1], s[i + 1..]);
  }

  lemma EncodeOne(b: byte)
    ensures Component.Encode([b]) == Component.Print(Component.EncodeToken(b))
  {
    Component.EncodeCons([b]);
    assert Component.Print(Component.EncodeToken(b)) + [] == Component.Print(Component.EncodeToken(b));
  }

  method EncodeBytes(bytes: seq<byte>, output: array<byte>, off: nat, cap: nat, outputLength: SizeRef)
    returns (status: Status)
    requires off + cap <= output.Length
    modifies output, outputLength
    ensures OnlyWithin(output, off, cap)
    ensures status == EncodeBytesStatus(bytes, cap)
    ensures status == Ok ==>
      && outputLength.value == |Component.Encode(bytes)| < cap
      && output[off..off + outputLength.value] == Component.Encode(bytes)
      && output[off + outputLength.value] == 0
    ensures status != Ok ==> outputLength.value == old(outputLength.value)
  {
    var outLen := new SizeRef(0);
    var valid := Utf8.Validate(bytes);
    if !valid {
      return InvalidUtf8;
    }
    status := EmitBytes(bytes, output, off, outLen, cap);
    if status != Ok {
      return;
    }
    if outLen.value >= cap {
      return BufferTooSmall;
    }
    output[off + outLen.value] := 0;
    outputLength.value := outLen.value;
    return Ok;
  }

  /** The encoding loop. */
  method EmitBytes(bytes: seq<byte>, output: array<byte>, off: nat, outLen: SizeRef, cap: nat)
    returns (status: Status)
    requires off + cap <= output.Length && outLen.value == 0
    modifies output, outLen
    ensures OnlyWithin(output, off, cap)
    ensures status == if bytes != [] && |Component.Encode(bytes)| >= cap then BufferTooSmall else Ok
    ensures status == Ok ==>
      && outLen.value == |Component.Encode(bytes)| <= cap
      && output[off..off + outLen.value] == Component.Encode(bytes)
  {
    var i := 0;
    assert Emitted(bytes, 0, cap, []);
    while i < |bytes|
      invariant 0 <= i <= |bytes| && outLen.value <= cap
      invariant i > 0 ==> outLen.value < cap
      invariant Emitted(bytes, i, cap, output[off..off + outLen.value])
      invariant OnlyWithin(output, off, cap)
    {
      EmittedStep(bytes, i, cap, output[off..off + outLen.value]);
      status := AppendByte(output, off, outLen, cap, bytes[i]);
      if status != Ok {
        return;
      }
      i := i + 1;
    }
    EmittedEnd(bytes, cap, output[off..off + outLen.value]);
    return Ok;
  }

  /** `text` is the encoding of the first `i` bytes, and has fitted so far. */
  ghost predicate Emitted(bytes: seq<byte>, i: nat, cap: nat, text: seq<byte>) {
    i <= |bytes| && text == Component.Encode(bytes[..i]) && (text == [] || |text| < cap)
  }

  lemma EmittedStep(bytes: seq<byte>, i: nat, cap: nat, text: seq<byte>)
    requires Emitted(bytes, i, cap, text) && i < |bytes|
    ensures var p := Component.Print(Component.EncodeToken(bytes[i]));
            if |text| + |p| < cap then Emitted(bytes, i + 1, cap, text + p) else |Component.Encode(bytes)| >= cap
  {
    EncodeSnoc(bytes, i);
  }

  lemma EmittedEnd(bytes: seq<byte>, cap: nat, text: seq<byte>)
    requires Emitted(bytes, |bytes|, cap, text)
    ensures text == Component.Encode(bytes)
  {
    assert bytes[..|bytes|] == bytes;
  }

  /** One pass of the decoding loop: a literal, an escape, or width 0 for neither. */
  method ReadToken(body: seq<byte>, i: nat) returns (token: Component.Token, width: nat)
    requires i < |body|
    ensures width == 0 ==> Component.Scan(body[i..]) == Component.Scanned([], false)
    ensures width > 0 ==>
      && i + width <= |body|
      && Component.Scan(body[i..]) == Component.Then(token, Component.Scan(body[i..][width..]))
  {
    var ch := body[i];
    token := Component.Lit(ch);
    if IsLiteral(ch) {
      return token, 1;
    }
    if ch != HYPHEN {
      return token, 0;
    }
    if i + 3 > |body| {
      return token, 0;
    }
    var hi, lo := Component.HexValue(body[i + 1]), Component.HexValue(body[i + 2]);
    if hi < 0 || lo < 0 {
      return token, 0;
    }
    return Component.Esc(hi * 16 + lo), 3;
  }

  method DecodeBytes(body: seq<byte>, output: array<byte>, off: nat, cap: nat, outputLength: SizeRef)
    returns (status: Status)
    requires 0 < cap && off + cap <= output.Length
    modifies output, outputLength
    ensures OnlyWithin(output, off, cap)
    ensures status == DecodeBytesStatus(body, cap)
    ensures status == Ok ==>
      && outputLength.value == |Component.Scan(body).tokens| < cap
      && output[off..off + outputLength.value] == Component.Payload(Component.Scan(body).tokens)
      && output[off + outputLength.value] == 0
    ensures status != Ok ==> outputLength.value == old(outputLength.value)
  {
    var byteLen;
    status, byteLen := ReadBytes(body, output, off, cap);
    if status != Ok {
      return;
    }
    var valid := Utf8.Validate(output[off..off + byteLen]);
    if !valid {
      return InvalidUtf8;
    }
    output[off + byteLen] := 0;
    outputLength.value := byteLen;
    return Ok;
  }

  /** The decoding loop. */
  method ReadBytes(body: seq<byte>, output: array<byte>, off: nat, cap: nat) returns (status: Status, byteLen: nat)
    requires 0 < cap && off + cap <= output.Length
    modifies output
    ensures OnlyWithin(output, off, cap)
    ensures var scan := Component.Scan(body);
      && status == (if |scan.tokens| >= cap then BufferTooSmall else if scan.complete then Ok else InvalidEscape)
      && (status == Ok ==> byteLen == |scan.tokens| && output[off..off + byteLen] == Component.Payload(scan.tokens))
  {
    byteLen := 0;
    var i := 0;
    ghost var ts: seq<Component.Token> := [];
    ReadStart(body);
    while i < |body|
      invariant 0 <= i <= |body| && byteLen == |ts| < cap
      invariant Read(body, i, ts)
      invariant output[off..off + byteLen] == Component.Payload(ts)
      invariant OnlyWithin(output, off, cap)
    {
      var token, width := ReadNext(body, i, ts);
      if width == 0 {
        return InvalidEscape, byteLen;
      }
      if byteLen + 1 >= cap {
        return BufferTooSmall, byteLen;
      }
      ts := ts + [token];
      i := i + width;
      output[off + byteLen] := token.b;
      byteLen := byteLen + 1;
    }
    ReadEnd(body, ts);
    return Ok, byteLen;
  }

  /** The first `i` bytes of `body` have been scanned as the tokens `ts`. */
  ghost predicate Read(body: seq<byte>, i: nat, ts: seq<Component.Token>) {
    && i <= |body|
    && Component.Scan(body).tokens == ts + Component.Scan(body[i..]).tokens
    && Component.Scan(body).complete == Component.Scan(body[i..]).complete
  }

  lemma ReadStart(body: seq<byte>)
    ensures Read(body, 0, [])
  {
    assert body[0..] == body;
    assert [] + Component.Scan(body).tokens == Component.Scan(body).tokens;
  }

  lemma ReadStep(body: seq<byte>, i: nat, ts: seq<Component.Token>, t: Component.Token, n: nat)
    requires Read(body, i, ts) && i + n <= |body|
    requires Component.Scan(body[i..]) == Component.Then(t, Component.Scan(body[i..][n..]))
    ensures Read(body, i + n, ts + [t])
    ensures |Component.Scan(body).tokens| > |ts|
    ensures Component.Payload(ts + [t]) == Component.Payload(ts) + [t.b]
  {
    assert body[i..][n..] == body[i + n..];
    Component.ConcatAssociates(ts, [t], Component.Scan(body[i + n..]).tokens);
  }

  lemma ReadMalformed(body: seq<byte>, i: nat, ts: seq<Component.Token>)
    requires Read(body, i, ts) && Component.Scan(body[i..]) == Component.Scanned([], false)
    ensures Component.Scan(body) == Component.Scanned(ts, false)
  {
    assert ts + [] == ts;
  }

  /** One token more, or the scan ends here. */
  method ReadNext(body: seq<byte>, i: nat, ghost ts: seq<Component.Token>)
    returns (token: Component.Token, width: nat)
    requires Read(body, i, ts) && i < |body|
    ensures width == 0 ==> Component.Scan(body) == Component.Scanned(ts, false)
    ensures width > 0 ==>
      && Read(body, i + width, ts + [token])
      && |Component.Scan(body).tokens| > |ts|
      && Component.Payload(ts + [token]) == Component.Payload(ts) + [token.b]
  {
    token, width := ReadToken(body, i);
    if width == 0 {
      ReadMalformed(body, i, ts);
    } else {
      ReadStep(body, i, ts, token, width);
    }
  }

  lemma ReadEnd(body: seq<byte>, ts: seq<Component.Token>)
    requires Read(body, |body|, ts)
    ensures Component.Scan(body) == Component.Scanned(ts, true)
  {
    assert body[|body|..] == [];
    assert ts + [] == ts;
  }

  // ----- bodies -----

  /** `text` is written, the components from `start` on are still to be encoded. */
  ghost predicate EncodeProgress(input: seq<byte>, start: nat, cap: nat, text: seq<byte>) {
    && start <= |input|
    && (text == [] || |text| < cap)
    && EncodeStatus(Split(input[start..]), |text|, cap) == EncodeBodyStatus(input, cap)
    && text + Join(Body.EncodeEach(Split(input[start..]))) == Body.Encode(input)
  }

  lemma EncodeProgressStart(input: seq<byte>, cap: nat)
    ensures EncodeProgress(input, 0, cap, [])
  {
    assert input[0..] == input;
    assert [] + Body.Encode(input) == Body.Encode(input);
  }

  lemma EncodeProgressLast(input: seq<byte>, start: nat, cap: nat, text: seq<byte>, c: seq<byte>)
    requires EncodeProgress(input, start, cap, text) && Split(input[start..]) == [c]
    ensures EncodeBodyStatus(input, cap) == EncodeBytesStatus(c, Room(|text|, cap))
    ensures Body.Encode(input) == text + Component.Encode(c)
  {
    assert Body.EncodeEach([c]) == [Component.Encode(c)];
  }

  lemma EncodeProgressSeparator(input: seq<byte>, start: nat, next: nat, cap: nat, text: seq<byte>, c: seq<byte>)
    requires EncodeProgress(input, start, cap, text) && next <= |input|
    requires Split(input[start..]) == [c] + Split(input[next..])
    ensures var status := EncodeBytesStatus(c, Room(|text|, cap));
            var text' := text + Component.Encode(c) + SEPARATOR;
            if status != Ok then EncodeBodyStatus(input, cap) == status
            else if |text'| >= cap then EncodeBodyStatus(input, cap) == BufferTooSmall
            else EncodeProgress(input, next, cap, text')
  {
    var cs := Split(input[next..]);
    assert ([c] + cs)[1..] == cs;
    EncodeJoinStep(c, cs);
    PrependConcat(text, Component.Encode(c), SEPARATOR, Join(Body.EncodeEach(cs)));
  }

  /** What encoding the component that ends at `i` decides. */
  lemma EncodeBoundary(input: seq<byte>, start: nat, i: nat, cap: nat, text: seq<byte>)
    requires EncodeProgress(input, start, cap, text) && InComponent(input, start, i)
    requires i == |input| || AtSeparator(input[i..])
    ensures var status := EncodeBytesStatus(input[start..i], Room(|text|, cap));
            var text' := text + Component.Encode(input[start..i]) + if i < |input| then SEPARATOR else [];
            && (i < |input| ==> i + 2 <= |input|)
            && (if status != Ok then EncodeBodyStatus(input, cap) == status
                else if |text'| >= cap then EncodeBodyStatus(input, cap) == BufferTooSmall
                else if i < |input| then EncodeProgress(input, i + 2, cap, text')
                else EncodeBodyStatus(input, cap) == Ok && Body.Encode(input) == text')
  {
    if i < |input| {
      ComponentEndsAtSeparator(input, start, i);
      EncodeProgressSeparator(input, start, i + 2, cap, text, input[start..i]);
    } else {
      ComponentEndsAtEnd(input, start);
      EncodeProgressLast(input, start, cap, text, input[start..i]);
    }
  }

  lemma EncodeJoinStep(c: seq<byte>, cs: Body.Components)
    requires |cs| > 0
    ensures Join(Body.EncodeEach([c] + cs)) == Component.Encode(c) + SEPARATOR + Join(Body.EncodeEach(cs))
  {
    Body.EachCons([c] + cs);
    assert ([c] + cs)[1..] == cs;
    assert Body.EncodeEach([c] + cs)[1..] == Body.EncodeEach(cs);
  }

  /** Writes `--` and a terminator behind the text so far. */
  method EmitSeparator(output: array<byte>, outLen: nat, cap: nat) returns (status: Status)
    requires outLen < cap <= output.Length
    modifies output
    ensures OnlyWithin(output, 0, cap)
    ensures status == if outLen + 2 >= cap then BufferTooSmall else Ok
    ensures status == Ok ==> output[..outLen + 2] == old(output[..outLen]) + SEPARATOR && output[outLen + 2] == 0
  {
    if outLen + 2 >= cap {
      return BufferTooSmall;
    }
    output[outLen] := HYPHEN;
    output[outLen + 1] := HYPHEN;
    output[outLen + 2] := 0;
    return Ok;
  }

  /** Encodes one component behind the text so far, and the separator if one follows. */
  method EncodeSegment(c: seq<byte>, atSeparator: bool, output: array<byte>, outLen: nat, cap: nat)
    returns (status: Status, newLen: nat)
    requires (outLen == 0 || outLen < cap) && cap <= output.Length
    modifies output
    ensures OnlyWithin(output, 0, cap)
    ensures var text' := old(output[..outLen]) + Component.Encode(c) + if atSeparator then SEPARATOR else [];
            && status == (if EncodeBytesStatus(c, Room(outLen, cap)) != Ok then EncodeBytesStatus(c, Room(outLen, cap))
                          else if |text'| >= cap then BufferTooSmall else Ok)
            && (status == Ok ==> newLen == |text'| < cap && output[..newLen] == text' && output[newLen] == 0)
  {
    var componentLen := new SizeRef(0);
    status := EncodeBytes(c, output, outLen, if cap > outLen then cap - outLen else 0, componentLen);
    newLen := outLen;
    if status != Ok {
      return;
    }
    newLen := outLen + componentLen.value;
    assert output[..newLen] == old(output[..outLen]) + Component.Encode(c);
    if atSeparator {
      status := EmitSeparator(output, newLen, cap);
      newLen := newLen + 2;
    }
  }

  /** The boundary case of the scan: the component `[start, i)` and what follows it. */
  method EncodeAt(input: seq<byte>, start: nat, i: nat, atSeparator: bool, output: array<byte>, outLen: nat, cap: nat)
    returns (status: Status, newLen: nat)
    requires outLen <= output.Length && cap <= output.Length
    requires EncodeProgress(input, start, cap, output[..outLen]) && InComponent(input, start, i)
    requires i == |input| || AtSeparator(input[i..])
    requires atSeparator == (i < |input|)
    modifies output
    ensures OnlyWithin(output, 0, cap)
    ensures status != Ok ==> EncodeBodyStatus(input, cap) == status
    ensures status == Ok ==> newLen < cap && output[newLen] == 0
    ensures status == Ok && atSeparator ==> i + 2 <= |input| && EncodeProgress(input, i + 2, cap, output[..newLen])
    ensures status == Ok && !atSeparator ==>
      EncodeBodyStatus(input, cap) == Ok && output[..newLen] == Body.Encode(input)
  {
    EncodeBoundary(input, start, i, cap, output[..outLen]);
    status, newLen := EncodeSegment(input[start..i], atSeparator, output, outLen, cap);
  }

  /** The loop state: the current component starts at `start` and the scan is at `i`. */
  ghost predicate EncodeState(input: seq<byte>, start: nat, i: nat, cap: nat, text: seq<byte>) {
    InComponent(input, start, i) && EncodeProgress(input, start, cap, text)
  }

  /** One pass of the scan: step over a payload byte, or finish a component. */
  method EncodeStep(input: seq<byte>, start: nat, i: nat, output: array<byte>, outLen: nat, cap: nat)
    returns (status: Status, finished: bool, start': nat, i': nat, outLen': nat)
    requires i <= |input| && outLen <= output.Length && cap <= output.Length
    requires EncodeState(input, start, i, cap, output[..outLen])
    modifies output
    ensures OnlyWithin(output, 0, cap)
    ensures status != Ok ==> EncodeBodyStatus(input, cap) == status
    ensures status == Ok && finished ==>
      && EncodeBodyStatus(input, cap) == Ok
      && outLen' < cap
      && output[..outLen'] == Body.Encode(input)
      && output[outLen'] == 0
    ensures status == Ok && !finished ==>
      && i < i' <= |input|
      && outLen' <= output.Length
      && EncodeState(input, start', i', cap, output[..outLen'])
  {
    status, finished, start', i', outLen' := Ok, false, start, i, outLen;
    var atSeparator := i + 1 < |input| && input[i] == HYPHEN && input[i + 1] == HYPHEN;
    if i == |input| || atSeparator {
      status, outLen' := EncodeAt(input, start, i, atSeparator, output, outLen, cap);
      if status != Ok {
        return;
      }
      if atSeparator {
        i' := i + 2;
        start' := i';
        ComponentStart(input, i');
      } else {
        finished := true;
      }
    } else {
      ComponentGrows(input, start, i);
      i' := i + 1;
    }
  }

  method EncodeBody(input: seq<byte>, output: array<byte>, cap: nat, outputLength: SizeRef) returns (status: Status)
    requires cap <= output.Length
    modifies output, outputLength
    ensures OnlyWithin(output, 0, cap)
    ensures status == EncodeBodyStatus(input, cap)
    ensures status == Ok ==>
      && outputLength.value == |Body.Encode(input)| < cap
      && output[..outputLength.value] == Body.Encode(input)
      && output[outputLength.value] == 0
    ensures status != Ok ==> outputLength.value == old(outputLength.value)
  {
    var segmentStart: nat, outLen: nat, i: nat := 0, 0, 0;
    ComponentStart(input, 0);
    EncodeProgressStart(input, cap);
    assert output[..0] == [];
    while i <= |input|
      invariant i <= |input| && outLen <= output.Length
      invariant EncodeState(input, segmentStart, i, cap, output[..outLen])
      invariant OnlyWithin(output, 0, cap)
      invariant outputLength.value == old(outputLength.value)
      decreases |input| - i
    {
      var finished;
      status, finished, segmentStart, i, outLen := EncodeStep(input, segmentStart, i, output, outLen, cap);
      if status != Ok {
        return;
      }
      if finished {
        outputLength.value := outLen;
        return Ok;
      }
    }
    assert false;
  }

  // ----- decoding a body -----

  /** `text` is written, the components from `start` on are still to be decoded. */
  ghost predicate DecodeProgress(body: seq<byte>, start: nat, cap: nat, text: seq<byte>) {
    && start <= |body|
    && |text| < cap
    && DecodeStatus(Split(body[start..]), |text|, cap) == DecodeBodyStatus(body, cap)
    && DecodesTo(body, text, Split(body[start..]))
  }

  /** If the components left decode, `body` decodes to `text` followed by their payloads. */
  ghost predicate DecodesTo(body: seq<byte>, text: seq<byte>, left: Body.Components) {
    && |left| > 0
    && (Body.DecodeEach(left).Payloads? ==> Body.Decode(body) == Success(text + Join(Body.DecodeEach(left).list)))
  }

  lemma DecodeProgressStart(body: seq<byte>, cap: nat)
    requires cap > 0
    ensures DecodeProgress(body, 0, cap, [])
  {
    assert body[0..] == body;
    var r := Body.DecodeEach(Split(body));
    if r.Payloads? {
      assert [] + Join(r.list) == Join(r.list);
    }
  }

  lemma DecodeProgressLast(body: seq<byte>, start: nat, cap: nat, text: seq<byte>, c: seq<byte>)
    requires DecodeProgress(body, start, cap, text) && Split(body[start..]) == [c]
    ensures var text' := text + PayloadOf(c) + [];
            && DecodeBodyStatus(body, cap) == DecodeBytesStatus(c, cap - |text|)
            && (DecodeBodyStatus(body, cap) == Ok ==> |text'| < cap && Body.Decode(body) == Success(text'))
  {
    assert Body.DecodeEach([c][1..]) == Body.Payloads([]);
    assert text + PayloadOf(c) + [] == text + PayloadOf(c);
  }

  lemma DecodeProgressSeparator(body: seq<byte>, start: nat, next: nat, cap: nat, text: seq<byte>, c: seq<byte>)
    requires DecodeProgress(body, start, cap, text) && next <= |body|
    requires Split(body[start..]) == [c] + Split(body[next..])
    ensures var status := DecodeBytesStatus(c, cap - |text|);
            var text' := text + PayloadOf(c) + SEPARATOR;
            if status != Ok then DecodeBodyStatus(body, cap) == status
            else if |text'| >= cap then DecodeBodyStatus(body, cap) == BufferTooSmall
            else DecodeProgress(body, next, cap, text')
  {
    var cs := Split(body[next..]);
    assert ([c] + cs)[1..] == cs;
    var r := Body.DecodeEach(cs);
    if DecodeBytesStatus(c, cap - |text|) == Ok && r.Payloads? {
      assert Body.DecodeEach([c] + cs) == Body.Payloads([PayloadOf(c)] + r.list);
      assert ([PayloadOf(c)] + r.list)[1..] == r.list;
      PrependConcat(text, PayloadOf(c), SEPARATOR, Join(r.list));
    }
  }

  lemma DecodeBoundary(body: seq<byte>, start: nat, i: nat, cap: nat, text: seq<byte>)
    requires DecodeProgress(body, start, cap, text) && InComponent(body, start, i)
    requires i == |body| || AtSeparator(body[i..])
    ensures var status := DecodeBytesStatus(body[start..i], cap - |text|);
            var text' := text + PayloadOf(body[start..i]) + if i < |body| then SEPARATOR else [];
            && (i < |body| ==> i + 2 <= |body|)
            && (if status != Ok then DecodeBodyStatus(body, cap) == status
                else if |text'| >= cap then DecodeBodyStatus(body, cap) == BufferTooSmall
                else if i < |body| then DecodeProgress(body, i + 2, cap, text')
                else DecodeBodyStatus(body, cap) == Ok && Body.Decode(body) == Success(text'))
  {
    if i < |body| {
      ComponentEndsAtSeparator(body, start, i);
      DecodeProgressSeparator(body, start, i + 2, cap, text, body[start..i]);
    } else {
      ComponentEndsAtEnd(body, start);
      DecodeProgressLast(body, start, cap, text, body[start..i]);
    }
  }

  /** Decodes one component behind the text so far, and writes the separator if one follows. */
  method DecodeSegment(c: seq<byte>, atSeparator: bool, output: array<byte>, outLen: nat, cap: nat)
    returns (status: Status, newLen: nat)
    requires outLen < cap <= output.Length
    modifies output
    ensures OnlyWithin(output, 0, cap)
    ensures var text' := old(output[..outLen]) + PayloadOf(c) + if atSeparator then SEPARATOR else [];
            && status == (if DecodeBytesStatus(c, cap - outLen) != Ok then DecodeBytesStatus(c, cap - outLen)
                          else if |text'| >= cap then BufferTooSmall else Ok)
            && (status == Ok ==> newLen == |text'| < cap && output[..newLen] == text' && output[newLen] == 0)
  {
    status, newLen := DecodeBehind(c, output, outLen, cap);
    if status == Ok && atSeparator {
      status := EmitSeparator(output, newLen, cap);
      newLen := newLen + 2;
    }
  }

  method DecodeBehind(c: seq<byte>, output: array<byte>, outLen: nat, cap: nat) returns (status: Status, newLen: nat)
    requires outLen < cap <= output.Length
    modifies output
    ensures OnlyWithin(output, 0, cap)
    ensures status == DecodeBytesStatus(c, cap - outLen)
    ensures status == Ok ==>
      && newLen == outLen + |PayloadOf(c)| < cap
      && output[..newLen] == old(output[..outLen]) + PayloadOf(c)
      && output[newLen] == 0
  {
    var componentLen := new SizeRef(0);
    status := DecodeBytes(c, output, outLen, cap - outLen, componentLen);
    newLen := outLen + componentLen.value;
    assert status == Ok ==> output[..newLen] == output[..outLen] + output[outLen..newLen];
  }

  method DecodeAt(body: seq<byte>, start: nat, i: nat, atSeparator: bool, output: array<byte>, outLen: nat, cap: nat)
    returns (status: Status, newLen: nat)
    requires outLen < cap <= output.Length
    requires DecodeProgress(body, start, cap, output[..outLen]) && InComponent(body, start, i)
    requires i == |body| || AtSeparator(body[i..])
    requires atSeparator == (i < |body|)
    modifies output
    ensures OnlyWithin(output, 0, cap)
    ensures status != Ok ==> DecodeBodyStatus(body, cap) == status
    ensures status == Ok ==> newLen < cap && output[newLen] == 0
    ensures status == Ok && atSeparator ==> i + 2 <= |body| && DecodeProgress(body, i + 2, cap, output[..newLen])
    ensures status == Ok && !atSeparator ==>
      DecodeBodyStatus(body, cap) == Ok && Body.Decode(body) == Success(output[..newLen])
  {
    DecodeBoundary(body, start, i, cap, output[..outLen]);
    status, newLen := DecodeSegment(body[start..i], atSeparator, output, outLen, cap);
  }

  /** The loop state: the current component starts at `start` and the scan is at `i`. */
  ghost predicate DecodeState(body: seq<byte>, start: nat, i: nat, cap: nat, text: seq<byte>) {
    InComponent(body, start, i) && DecodeProgress(body, start, cap, text)
  }

  /** One pass of the scan: step over a payload byte, or finish a component. */
  method DecodeStep(body: seq<byte>, start: nat, i: nat, output: array<byte>, outLen: nat, cap: nat)
    returns (status: Status, finished: bool, start': nat, i': nat, outLen': nat)
    requires i <= |body| && outLen <= output.Length && cap <= output.Length
    requires DecodeState(body, start, i, cap, output[..outLen])
    modifies output
    ensures OnlyWithin(output, 0, cap)
    ensures status != Ok ==> DecodeBodyStatus(body, cap) == status
    ensures status == Ok && finished ==>
      && DecodeBodyStatus(body, cap) == Ok
      && outLen' < cap
      && Body.Decode(body) == Success(output[..outLen'])
      && output[outLen'] == 0
    ensures status == Ok && !finished ==>
      && i < i' <= |body|
      && outLen' <= output.Length
      && DecodeState(body, start', i', cap, output[..outLen'])
  {
    status, finished, start', i', outLen' := Ok, false, start, i, outLen;
    var atSeparator := i + 1 < |body| && body[i] == HYPHEN && body[i + 1] == HYPHEN;
    if i == |body| || atSeparator {
      status, outLen' := DecodeAt(body, start, i, atSeparator, output, outLen, cap);
      if status != Ok {
        return;
      }
      if atSeparator {
        i' := i + 2;
        start' := i';
        ComponentStart(body, i');
      } else {
        finished := true;
      }
    } else {
      ComponentGrows(body, start, i);
      i' := i + 1;
    }
  }

  method DecodeBody(body: seq<byte>, output: array<byte>, cap: nat, outputLength: SizeRef) returns (status: Status)
    requires cap <= output.Length
    modifies output, outputLength
    ensures OnlyWithin(output, 0, cap)
    ensures status == DecodeBodyStatus(body, cap)
    ensures status == Ok ==>
      && outputLength.value < cap
      && Body.Decode(body) == Success(output[..outputLength.value])
      && output[outputLength.value] == 0
    ensures status != Ok ==> outputLength.value == old(outputLength.value)
  {
    var segmentStart: nat, outLen: nat, i: nat := 0, 0, 0;
    if cap == 0 {
      return BufferTooSmall;
    }
    ComponentStart(body, 0);
    DecodeProgressStart(body, cap);
    assert output[..0] == [];
    while i <= |body|
      invariant i <= |body| && outLen <= output.Length
      invariant DecodeState(body, segmentStart, i, cap, output[..outLen])
      invariant OnlyWithin(output, 0, cap)
      invariant outputLength.value == old(outputLength.value)
      decreases |body| - i
    {
      var finished;
      status, finished, segmentStart, i, outLen := DecodeStep(body, segmentStart, i, output, outLen, cap);
      if status != Ok {
        return;
      }
      if finished {
        outputLength.value := outLen;
        return Ok;
      }
    }
    assert false;
  }

  // ----- the public one-component entry points -----

  method EncodeComponent(input: seq<byte>, output: array<byte>, cap: nat, outputLength: SizeRef)
    returns (status: Status)
    requires cap <= output.Length
    modifies output, outputLength
    ensures OnlyWithin(output, 0, cap)
    ensures status == EncodeBytesStatus(input, cap)
    ensures status == Ok ==>
      && outputLength.value == |Component.Encode(input)| < cap
      && output[..outputLength.value] == Component.Encode(input)
      && output[outputLength.value] == 0
    ensures status != Ok ==> outputLength.value == old(outputLength.value)
  {
    status := EncodeBytes(input, output, 0, cap, outputLength);
  }

  method DecodeComponent(component: seq<byte>, output: array<byte>, cap: nat, outputLength: SizeRef)
    returns (status: Status)
    requires cap <= output.Length
    modifies output, outputLength
    ensures OnlyWithin(output, 0, cap)
    ensures status == if cap == 0 then BufferTooSmall else DecodeBytesStatus(component, cap)
    ensures status == Ok ==>
      && outputLength.value < cap
      && Component.Decode(component) == Success(output[..outputLength.value])
      && output[outputLength.value] == 0
    ensures status != Ok ==> outputLength.value == old(outputLength.value)
  {
    if cap == 0 {
      return BufferTooSmall;
    }
    status := DecodeBytes(component, output, 0, cap, outputLength);
  }
}
