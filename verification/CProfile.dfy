/** The profile entry points of the C library, with their buffers and size checks. */
module CProfile {
  import opened Bytes
  import opened Memory
  import opened Structure
  import opened CapacitySpec
  import Base36
  import Body
  import CCodec
  import Component
  import Profile
  import Sha256
  import Sha256Spec
  import Utf8

  const SIZE_MAX: nat := 0xffff_ffff_ffff_ffff

  /** Status of the profile encoder for a given output capacity; `mallocOk` says whether both allocations succeed. */
  function EncodeProfileStatus(input: seq<byte>, marker: seq<byte>, cap: nat, mallocOk: bool): Status {
    if !Profile.ValidMarker(marker) then InvalidEncoding
    else if |input| > (SIZE_MAX - 1) / 3 || !mallocOk then BufferTooSmall
    else match Profile.Encode(input, marker)
      case Failure(e) => e
      case Success(text) => if |text| + 1 > cap then BufferTooSmall else Ok
  }

  function DecodeProfileStatus(text: seq<byte>, marker: seq<byte>, cap: nat): Status {
    match Profile.Decode(text, marker)
    case Success(_) => DecodeBodyStatus(text, cap)
    case Failure(e) =>
      if e == InvalidEscape || e == InvalidUtf8 then DecodeBodyStatus(text, cap) else e
  }

  /** Sixty-four bytes hold every label: only allocation or an enormous input can run out of room. */
  lemma SixtyFourSuffice(input: seq<byte>, marker: seq<byte>, cap: nat, mallocOk: bool)
    requires cap >= 64
    ensures EncodeProfileStatus(input, marker, cap, mallocOk) == BufferTooSmall <==>
      Profile.ValidMarker(marker) && (|input| > (SIZE_MAX - 1) / 3 || !mallocOk)
  {
    Profile.EncodeOutcome(input, marker);
  }

  method ValidateMarker(marker: seq<byte>) returns (status: Status)
    ensures status == if Profile.ValidMarker(marker) then Ok else InvalidEncoding
  {
    if |marker| < 3 || |marker| > 13 {
      return InvalidEncoding;
    }
    if marker[|marker| - 2] != HYPHEN || marker[|marker| - 1] != HYPHEN {
      return InvalidEncoding;
    }
    if Profile.XN_PREFIX <= marker {
      return InvalidEncoding;
    }
    var i := 0;
    while i < |marker|
      invariant 0 <= i <= |marker|
      invariant forall k | 0 <= k < i :: Profile.IsMarkerByte(marker[k])
    {
      var ch := marker[i];
      if !((ch >= 0x61 && ch <= 0x7a) || (ch >= 0x30 && ch <= 0x39) || ch == HYPHEN) {
        assert !Profile.IsMarkerByte(marker[i]);
        return InvalidEncoding;
      }
      i := i + 1;
    }
    return Ok;
  }

  /** 3n + 1, if it does not wrap. */
  method CheckedEncodedCapacity(inputLen: nat) returns (ok: bool, capacity: nat)
    ensures ok <==> inputLen * 3 + 1 <= SIZE_MAX
    ensures ok ==> capacity == inputLen * 3 + 1
  {
    if inputLen > (SIZE_MAX - 1) / 3 {
      return false, 0;
    }
    return true, inputLen * 3 + 1;
  }

  method EncodeProfileHash(component: seq<byte>, marker: seq<byte>,
                           output: array<byte>, cap: nat, outputLength: SizeRef)
    returns (status: Status)
    requires cap <= output.Length
    modifies output, outputLength
    ensures OnlyWithin(output, 0, cap)
    ensures Delivers(AsLabel(marker + Base36.Encode(Sha256Spec.Sha256(component))), status, output, cap, outputLength)
    ensures status != Ok ==> outputLength.value == old(outputLength.value)
  {
    if |marker| + Base36.HASH_BODY_LENGTH > Profile.MAX_LABEL_LENGTH {
      return LabelTooLong;
    }
    if cap < |marker| + Base36.HASH_BODY_LENGTH + 1 {
      return BufferTooSmall;
    }
    var digest := new byte[32];
    Sha256.Digest(component, digest);
    WriteHashLabel(digest[..], marker, output, cap, outputLength);
    return Ok;
  }

  /** The marker, then the base-36 digits of the digest. */
  method WriteHashLabel(digest: seq<byte>, marker: seq<byte>, output: array<byte>, cap: nat, outputLength: SizeRef)
    requires |digest| == 32 && |marker| + Base36.HASH_BODY_LENGTH + 1 <= cap <= output.Length
    modifies output, outputLength
    ensures OnlyWithin(output, 0, cap)
    ensures outputLength.value == |marker| + Base36.HASH_BODY_LENGTH
    ensures output[..outputLength.value] == marker + Base36.Encode(digest) && output[outputLength.value] == 0
  {
    CopyInto(output, 0, marker);
    assert output[..|marker|] == marker;
    var hashLen := new SizeRef(0);
    var status := Base36.Base36Encode(digest, output, |marker|, cap - |marker|, hashLen);
    assert output[..|marker|] == marker;
    outputLength.value := |marker| + hashLen.value;
    output[outputLength.value] := 0;
    assert output[..outputLength.value] == output[..|marker|] + output[|marker|..outputLength.value];
  }

  method EncodeProfile(input: seq<byte>, marker: seq<byte>,
                       output: array<byte>, cap: nat, outputLength: SizeRef, mallocOk: bool)
    returns (status: Status)
    requires cap <= output.Length
    modifies output, outputLength
    ensures OnlyWithin(output, 0, cap)
    ensures status == EncodeProfileStatus(input, marker, cap, mallocOk)
    ensures status == Ok ==>
      && outputLength.value < cap
      && Profile.Encode(input, marker) == Success(output[..outputLength.value])
      && output[outputLength.value] == 0
    ensures status != Ok ==> outputLength.value == old(outputLength.value)
  {
    status := ValidateMarker(marker);
    if status != Ok {
      return;
    }
    var fits, capacity := CheckedEncodedCapacity(|input|);
    if !fits {
      return BufferTooSmall;
    }
    if !mallocOk {
      return BufferTooSmall;
    }
    TripleCapacitySuffices(input, capacity);
    var core := new byte[capacity];
    var coreLen := new SizeRef(0);
    status := CCodec.EncodeBody(input, core, capacity, coreLen);
    if status != Ok {
      return;
    }
    status := ChooseLabel(input, marker, core, coreLen.value, output, cap, outputLength);
  }

  /** Copies the encoding and its terminator, if they fit. */
  method CarryCore(core: array<byte>, coreLen: nat, output: array<byte>, cap: nat, outputLength: SizeRef)
    returns (status: Status)
    requires core != output && cap <= output.Length && coreLen < core.Length && core[coreLen] == 0
    modifies output, outputLength
    ensures OnlyWithin(output, 0, cap)
    ensures status == if coreLen + 1 > cap then BufferTooSmall else Ok
    ensures status == Ok ==>
      outputLength.value == coreLen && output[..coreLen] == core[..coreLen] && output[coreLen] == 0
    ensures status != Ok ==> outputLength.value == old(outputLength.value)
  {
    if coreLen + 1 > cap {
      return BufferTooSmall;
    }
    CopyInto(output, 0, core[..coreLen + 1]);
    assert output[..coreLen] == core[..coreLen];
    outputLength.value := coreLen;
    return Ok;
  }

  /** The edge check, then the choice between the encoding itself and its hash. */
  method ChooseLabel(input: seq<byte>, marker: seq<byte>, core: array<byte>, coreLen: nat,
                     output: array<byte>, cap: nat, outputLength: SizeRef)
    returns (status: Status)
    requires Profile.ValidMarker(marker) && Utf8.Valid(input)
    requires core != output && cap <= output.Length
    requires core.Length == 3 * |input| + 1 && coreLen < core.Length
    requires core[..coreLen] == Body.Encode(input) && core[coreLen] == 0
    modifies output, outputLength
    ensures OnlyWithin(output, 0, cap)
    ensures Delivers(Profile.Encode(input, marker), status, output, cap, outputLength)
    ensures status != Ok ==> outputLength.value == old(outputLength.value)
  {
    ghost var text := core[..coreLen];
    assert coreLen > 0 ==> text[0] == core[0] && text[coreLen - 1] == core[coreLen - 1];
    if coreLen == 0 || core[0] == HYPHEN || core[coreLen - 1] == HYPHEN {
      return InvalidEncoding;
    }
    if coreLen <= Profile.MAX_LABEL_LENGTH && !(marker <= core[..coreLen]) {
      status := CarryCore(core, coreLen, output, cap, outputLength);
      return;
    }
    HashChosen(input, marker);
    status := HashInput(input, marker, output, cap, outputLength, core.Length);
  }

  /** The status and the output that tell the caller `r`. */
  ghost predicate Delivers(r: Result, status: Status, output: array<byte>, cap: nat, outputLength: SizeRef)
    requires cap <= output.Length
    reads output, outputLength
  {
    match r
    case Failure(e) => status == e
    case Success(text) =>
      && status == (if |text| + 1 > cap then BufferTooSmall else Ok)
      && (status == Ok ==> outputLength.value == |text| && output[..|text|] == text && output[|text|] == 0)
  }

  /** A label text, if it is short enough. */
  function AsLabel(text: seq<byte>): Result {
    if |text| > Profile.MAX_LABEL_LENGTH then Failure(LabelTooLong) else Success(text)
  }

  lemma HashChosen(input: seq<byte>, marker: seq<byte>)
    requires Profile.ValidMarker(marker) && Utf8.Valid(input)
    requires !Profile.HyphenEdge(Body.Encode(input)) && !Profile.FitsLabel(Body.Encode(input), marker)
    ensures Profile.Encode(input, marker) == AsLabel(Profile.HashLabel(input, marker))
  {
    Profile.HashLabelShape(input, marker);
  }

  /** The fallback: component-encode the whole input and hash it. */
  method HashInput(input: seq<byte>, marker: seq<byte>,
                   output: array<byte>, cap: nat, outputLength: SizeRef, capacity: nat)
    returns (status: Status)
    requires cap <= output.Length && capacity >= 3 * |input| + 1 && Utf8.Valid(input)
    modifies output, outputLength
    ensures OnlyWithin(output, 0, cap)
    ensures Delivers(AsLabel(Profile.HashLabel(input, marker)), status, output, cap, outputLength)
    ensures status != Ok ==> outputLength.value == old(outputLength.value)
  {
    TripleCapacitySuffices(input, capacity);
    var component := new byte[capacity];
    var componentLen := new SizeRef(0);
    status := CCodec.EncodeComponent(input, component, capacity, componentLen);
    if status == Ok {
      status := EncodeProfileHash(component[..componentLen.value], marker, output, cap, outputLength);
    }
  }

  method DecodeProfile(text: seq<byte>, marker: seq<byte>, output: array<byte>, cap: nat, outputLength: SizeRef)
    returns (status: Status)
    requires cap <= output.Length
    modifies output, outputLength
    ensures OnlyWithin(output, 0, cap)
    ensures status == DecodeProfileStatus(text, marker, cap)
    ensures status == Ok ==>
      && outputLength.value < cap
      && Profile.Decode(text, marker) == Success(output[..outputLength.value])
      && output[outputLength.value] == 0
    ensures status != Ok ==> outputLength.value == old(outputLength.value)
  {
    status := ValidateMarker(marker);
    if status != Ok {
      return;
    }
    if marker <= text {
      status := CheckDigest(text[|marker|..]);
      return;
    }
    if |text| > Profile.MAX_LABEL_LENGTH {
      return LabelTooLong;
    }
    if |text| == 0 || text[0] == HYPHEN || text[|text| - 1] == HYPHEN {
      return InvalidEncoding;
    }
    Body.DecodeErrors(text);
    status := CCodec.DecodeBody(text, output, cap, outputLength);
  }

  /** The digit check on what follows the marker. */
  method CheckDigest(digest: seq<byte>) returns (status: Status)
    ensures Profile.DecodeMarked(digest) == Failure(status)
    ensures status == NotDecodable || status == InvalidEncoding
  {
    if |digest| != Base36.HASH_BODY_LENGTH {
      return InvalidEncoding;
    }
    var i := 0;
    while i < |digest|
      invariant 0 <= i <= |digest|
      invariant forall k | 0 <= k < i :: Base36.IsDigit(digest[k])
    {
      if !Base36.IsDigit(digest[i]) {
        return InvalidEncoding;
      }
      i := i + 1;
    }
    return NotDecodable;
  }

  /** The exact status: room is asked for only after everything that can be wrong with the input. */
  lemma EncodeProfileVerdict(input: seq<byte>, marker: seq<byte>, cap: nat, mallocOk: bool)
    ensures var r := Profile.Encode(input, marker);
            var status := EncodeProfileStatus(input, marker, cap, mallocOk);
            var memory := 3 * |input| + 1 <= SIZE_MAX && mallocOk;
            && (status == Ok <==> memory && r.Success? && |r.value| < cap)
            && (status == BufferTooSmall <==>
                 Profile.ValidMarker(marker) && (!memory || (r.Success? && |r.value| >= cap)))
            && (status == InvalidUtf8 <==> memory && r == Failure(InvalidUtf8))
            && (status == InvalidEncoding <==>
                 (memory || !Profile.ValidMarker(marker)) && r == Failure(InvalidEncoding))
  {
    Profile.EncodeErrors(input, marker);
  }

  /** A label handed back to the decoder: not decodable if it was hashed, else the input's length decides. */
  lemma ProfileBufferRoundTrip(input: seq<byte>, marker: seq<byte>, encodeCap: nat, decodeCap: nat)
    ensures EncodeProfileStatus(input, marker, encodeCap, true) == Ok ==>
      && Profile.Encode(input, marker).Success?
      && DecodeProfileStatus(Profile.Encode(input, marker).value, marker, decodeCap) ==
           if !Profile.FitsLabel(Body.Encode(input), marker) then NotDecodable
           else if |input| < decodeCap then Ok
           else BufferTooSmall
  {
    if EncodeProfileStatus(input, marker, encodeCap, true) == Ok {
      Profile.Partition(input, marker);
      DecodeProfileVerdict(Profile.Encode(input, marker).value, marker, decodeCap);
    }
  }

  /** A large enough buffer makes the status the codec's own verdict. */
  lemma DecodeProfileVerdict(text: seq<byte>, marker: seq<byte>, cap: nat)
    ensures var r := Profile.Decode(text, marker);
            var status := DecodeProfileStatus(text, marker, cap);
            && (status == Ok <==> r.Success? && |r.value| < cap)
            && (r.Success? && |r.value| >= cap ==> status == BufferTooSmall)
            && (r.Failure? && |text| < cap ==> status == r.error)
            && (r.Failure? && r.error != InvalidEscape && r.error != InvalidUtf8 ==> status == r.error)
            && (r.Failure? && (r.error == InvalidEscape || r.error == InvalidUtf8) ==>
                 status == DecodeBodyStatus(text, cap) && Body.Decode(text) == r)
  {
    DecodeBodyThreshold(text, cap);
    Body.DecodeErrors(text);
  }
}
