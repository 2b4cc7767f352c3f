/** The DNS profile: reversible labels, hash labels, and what a label tells about its input. */
module Profile {
  import opened Bytes
  import opened Structure
  import Base36
  import Body
  import Characters
  import Component
  import Sha256Spec
  import Utf8

  const MAX_LABEL_LENGTH: nat := 63
  const XN_PREFIX: seq<byte> := [0x78, 0x6e, 0x2d, 0x2d]

  predicate IsMarkerByte(b: byte) {
    IsLiteral(b) || b == HYPHEN
  }

  predicate ValidMarker(m: seq<byte>) {
    && 3 <= |m| <= 13
    && m[|m| - 2] == HYPHEN && m[|m| - 1] == HYPHEN
    && !(XN_PREFIX <= m)
    && forall i | 0 <= i < |m| :: IsMarkerByte(m[i])
  }

  predicate HyphenEdge(s: seq<byte>) {
    s == [] || s[0] == HYPHEN || s[|s| - 1] == HYPHEN
  }

  /** The digest label of an input: marker, then the hash of its component encoding. */
  function HashLabel(input: seq<byte>, marker: seq<byte>): seq<byte> {
    marker + Base36.Encode(Sha256Spec.Sha256(Component.Encode(input)))
  }

  /** An encoding is carried as it is when it fits a label and cannot be taken for a hash label. */
  predicate FitsLabel(core: seq<byte>, marker: seq<byte>) {
    |core| <= MAX_LABEL_LENGTH && !(marker <= core)
  }

  function Encode(input: seq<byte>, marker: seq<byte>): Result {
    var core := Body.Encode(input);
    if !ValidMarker(marker) then Failure(InvalidEncoding)
    else if !Utf8.Valid(input) then Failure(InvalidUtf8)
    else if HyphenEdge(core) then Failure(InvalidEncoding)
    else if FitsLabel(core, marker) then Success(core)
    else if |marker| + Base36.HASH_BODY_LENGTH > MAX_LABEL_LENGTH then Failure(LabelTooLong)
    else Success(HashLabel(input, marker))
  }

  function Decode(dnsLabel: seq<byte>, marker: seq<byte>): Result {
    if !ValidMarker(marker) then Failure(InvalidEncoding)
    else if marker <= dnsLabel then DecodeMarked(dnsLabel[|marker|..])
    else if |dnsLabel| > MAX_LABEL_LENGTH then Failure(LabelTooLong)
    else if HyphenEdge(dnsLabel) then Failure(InvalidEncoding)
    else Body.Decode(dnsLabel)
  }

  /** Marker-prefixed labels never fall back to reversible parsing. */
  function DecodeMarked(digest: seq<byte>): Result {
    if |digest| == Base36.HASH_BODY_LENGTH && Base36.AllDigits(digest) then Failure(NotDecodable)
    else Failure(InvalidEncoding)
  }

  // ----- markers -----

  /** A marker is a core of 1 to 11 of the 37 characters and two hyphens, and does not start with `xn--`. */
  lemma MarkerForm(m: seq<byte>)
    ensures ValidMarker(m) <==>
      && 1 <= |m| - 2 <= 11
      && m[|m| - 2..] == [0x2d, 0x2d]
      && (forall i | 0 <= i < |m| - 2 :: m[i] as char in "abcdefghijklmnopqrstuvwxyz0123456789-")
      && !([0x78, 0x6e, 0x2d, 0x2d] <= m)
  {
    forall i | 0 <= i < |m|
      ensures IsMarkerByte(m[i]) <==> m[i] as char in "abcdefghijklmnopqrstuvwxyz0123456789-"
    {
      Characters.MarkerText(m[i]);
    }
    if |m| >= 2 {
      assert m[|m| - 2..] == [m[|m| - 2], m[|m| - 1]];
    }
  }

  /** The prefix of internationalised names is reserved. */
  lemma ReservedPrefix(rest: seq<byte>)
    ensures !ValidMarker([0x78, 0x6e, 0x2d, 0x2d] + rest)
  {
    MarkerForm([0x78, 0x6e, 0x2d, 0x2d] + rest);
  }

  // ----- the two classes of labels -----

  predicate IsReversibleLabel(dnsLabel: seq<byte>, marker: seq<byte>) {
    1 <= |dnsLabel| <= MAX_LABEL_LENGTH && !HyphenEdge(dnsLabel) && !(marker <= dnsLabel)
  }

  predicate IsHashLabel(dnsLabel: seq<byte>, marker: seq<byte>) {
    marker <= dnsLabel && |dnsLabel| == |marker| + Base36.HASH_BODY_LENGTH && Base36.AllDigits(dnsLabel[|marker|..])
  }

  lemma HashLabelShape(input: seq<byte>, marker: seq<byte>)
    ensures IsHashLabel(HashLabel(input, marker), marker)
    ensures HashLabel(input, marker)[|marker|..] == Base36.Encode(Sha256Spec.Sha256(Component.Encode(input)))
  {
  }

  /** Every label is of one class only: decodable to the lowercased input, or one-way. */
  lemma Partition(input: seq<byte>, marker: seq<byte>)
    ensures match Encode(input, marker)
            case Failure(_) => true
            case Success(dnsLabel) =>
              if FitsLabel(Body.Encode(input), marker) then
                && IsReversibleLabel(dnsLabel, marker) && !IsHashLabel(dnsLabel, marker)
                && Decode(dnsLabel, marker) == Success(Lower(input))
              else
                && IsHashLabel(dnsLabel, marker) && !IsReversibleLabel(dnsLabel, marker)
                && Decode(dnsLabel, marker) == Failure(NotDecodable)
  {
    if Encode(input, marker).Success? {
      if FitsLabel(Body.Encode(input), marker) {
        Body.RoundTrip(input);
      } else {
        HashLabelShape(input, marker);
      }
    }
  }

  /** When encoding succeeds; the length error is never among the failures. */
  lemma EncodeOutcome(input: seq<byte>, marker: seq<byte>)
    ensures Encode(input, marker).Success? <==>
      ValidMarker(marker) && Utf8.Valid(input) && !HyphenEdge(Body.Encode(input))
    ensures Encode(input, marker) != Failure(LabelTooLong)
    ensures Encode(input, marker).Success? ==> |Encode(input, marker).value| <= MAX_LABEL_LENGTH
  {
  }

  /** The encoding has a hyphen at an edge exactly when it is empty, starts with anything
      but an alphanumeric byte, or ends in a separator. */
  lemma HyphenEdgeInput(input: seq<byte>)
    ensures HyphenEdge(Body.Encode(input)) <==>
      || input == []
      || !(IsLiteral(input[0]) || IsUpper(input[0]))
      || Split(input)[|Split(input)| - 1] == []
  {
    if input != [] {
      EncodedFirst(input);
      EncodedLast(Split(input));
      if Split(input)[|Split(input)| - 1] == [] && |Split(input)| == 1 {
        JoinSplit(input);
      }
    }
  }

  /** Which code an input gets: the marker is checked first, then UTF-8, then the edges. */
  lemma EncodeErrors(input: seq<byte>, marker: seq<byte>)
    ensures Encode(input, marker) == Failure(InvalidUtf8) <==> ValidMarker(marker) && !Utf8.Valid(input)
    ensures Encode(input, marker) == Failure(InvalidEncoding) <==>
      || !ValidMarker(marker)
      || (Utf8.Valid(input) &&
          (|| input == []
           || !(IsLiteral(input[0]) || IsUpper(input[0]))
           || Split(input)[|Split(input)| - 1] == []))
    ensures Encode(input, marker).Failure? ==> Encode(input, marker).error in {InvalidUtf8, InvalidEncoding}
  {
    HyphenEdgeInput(input);
    EncodeOutcome(input, marker);
  }

  lemma EncodedFirst(input: seq<byte>)
    requires input != []
    ensures Body.Encode(input) != []
    ensures Body.Encode(input)[0] == HYPHEN <==> !(IsLiteral(input[0]) || IsUpper(input[0]))
  {
    if AtSeparator(input) {
      Body.EncodeAtSeparator(input);
    } else {
      Body.EncodeAtPayload(input);
    }
  }

  lemma {:induction false} EncodedLast(cs: Body.Components)
    requires |cs| > 0
    ensures var e := Join(Body.EncodeEach(cs));
            EndsInHyphen(e) <==> |cs| > 1 && cs[|cs| - 1] == []
  {
    var es := Body.EncodeEach(cs);
    Component.EncodeNoSeparator(cs[0]);
    if |cs| > 1 {
      EncodedLast(cs[1..]);
      assert es[1..] == Body.EncodeEach(cs[1..]);
      assert cs[1..][|cs| - 2] == cs[|cs| - 1];
      var rest := Join(es[1..]);
      if rest == [] {
        EmptyJoin(cs[1..]);
      } else {
        assert Join(es)[|Join(es)| - 1] == rest[|rest| - 1];
      }
    }
  }

  lemma EmptyJoin(cs: Body.Components)
    requires |cs| > 0 && Join(Body.EncodeEach(cs)) == []
    ensures |cs| == 1 && cs[0] == []
  {
    Component.EncodeLength(cs[0]);
  }

  // ----- the outcomes of decoding -----

  /** A label is a hash label exactly when it is the marker and fifty digits of some number;
      every other label behind the marker is malformed. */
  lemma NotDecodableIff(dnsLabel: seq<byte>, marker: seq<byte>)
    ensures Decode(dnsLabel, marker) == Failure(NotDecodable) <==>
      ValidMarker(marker) && exists n: nat | n < Base36.Pow(36, 50) :: dnsLabel == marker + Base36.Digits(n, 50)
    ensures ValidMarker(marker) && marker <= dnsLabel && Decode(dnsLabel, marker) != Failure(NotDecodable) ==>
      Decode(dnsLabel, marker) == Failure(InvalidEncoding)
  {
    Body.DecodeErrors(dnsLabel);
    if Decode(dnsLabel, marker) == Failure(NotDecodable) {
      var digest := dnsLabel[|marker|..];
      Base36.DigitsVal36(digest);
      assert dnsLabel == marker + Base36.Digits(Base36.Val36(digest), 50);
    }
    forall n: nat | n < Base36.Pow(36, 50) && dnsLabel == marker + Base36.Digits(n, 50)
      ensures ValidMarker(marker) ==> Decode(dnsLabel, marker) == Failure(NotDecodable)
    {
      assert dnsLabel[|marker|..] == Base36.Digits(n, 50);
    }
  }

  /** Which code an unmarked label gets: the length is checked first, then the edges, then the body. */
  lemma DecodeUnmarked(dnsLabel: seq<byte>, marker: seq<byte>)
    requires ValidMarker(marker) && !(marker <= dnsLabel)
    ensures Decode(dnsLabel, marker) == Failure(LabelTooLong) <==> |dnsLabel| > 63
    ensures Decode(dnsLabel, marker) == Failure(InvalidEncoding) <==>
      |dnsLabel| <= 63 && (dnsLabel == [] || dnsLabel[0] == 0x2d || dnsLabel[|dnsLabel| - 1] == 0x2d)
    ensures Decode(dnsLabel, marker) in {Failure(LabelTooLong), Failure(InvalidEncoding), Body.Decode(dnsLabel)}
  {
    Body.DecodeErrors(dnsLabel);
  }

  /** An invalid marker is reported before anything else. */
  lemma InvalidMarker(text: seq<byte>, marker: seq<byte>)
    requires !ValidMarker(marker)
    ensures Encode(text, marker) == Failure(InvalidEncoding) && Decode(text, marker) == Failure(InvalidEncoding)
  {
  }

  // ----- injectivity up to a hash collision -----

  /** Hash labels agree exactly when the digests do. */
  lemma HashLabelsEqual(x: seq<byte>, y: seq<byte>, marker: seq<byte>)
    ensures HashLabel(x, marker) == HashLabel(y, marker) <==>
      Sha256Spec.Sha256(Component.Encode(x)) == Sha256Spec.Sha256(Component.Encode(y))
    ensures Lower(x) == Lower(y) ==> HashLabel(x, marker) == HashLabel(y, marker)
  {
    HashLabelShape(x, marker);
    HashLabelShape(y, marker);
    Base36.EncodeInjective(Sha256Spec.Sha256(Component.Encode(x)), Sha256Spec.Sha256(Component.Encode(y)));
    Component.EncodeInjective(x, y);
  }

  /** Two inputs share a label only if they agree up to case, or are both hashed and collide. */
  lemma SameLabel(x: seq<byte>, y: seq<byte>, marker: seq<byte>)
    ensures Encode(x, marker).Success? && Encode(y, marker).Success? ==>
      (Encode(x, marker) == Encode(y, marker) <==>
       || Lower(x) == Lower(y)
       || (&& !FitsLabel(Body.Encode(x), marker) && !FitsLabel(Body.Encode(y), marker)
           && Sha256Spec.Sha256(Component.Encode(x)) == Sha256Spec.Sha256(Component.Encode(y))))
  {
    Body.EncodeInjective(x, y);
    HashLabelsEqual(x, y, marker);
    HashLabelShape(x, marker);
    HashLabelShape(y, marker);
  }

  /** Equal labels of inputs that differ beyond case are a SHA-256 collision. */
  lemma InjectiveUpToCollision(x: seq<byte>, y: seq<byte>, marker: seq<byte>)
    ensures Encode(x, marker).Success? && Encode(x, marker) == Encode(y, marker) && Lower(x) != Lower(y) ==>
      && Component.Encode(x) != Component.Encode(y)
      && Sha256Spec.Sha256(Component.Encode(x)) == Sha256Spec.Sha256(Component.Encode(y))
  {
    SameLabel(x, y, marker);
    Component.EncodeInjective(x, y);
  }

  /** A decodable label is the label of what it decodes to exactly when its text is canonical. */
  lemma ReencodeLabel(dnsLabel: seq<byte>, marker: seq<byte>)
    requires Decode(dnsLabel, marker).Success?
    ensures Encode(Decode(dnsLabel, marker).value, marker) == Success(dnsLabel) <==> Body.CanonicalBody(dnsLabel)
  {
    var x := Decode(dnsLabel, marker).value;
    Body.ReencodeIffCanonical(dnsLabel);
    Body.DecodedValid(dnsLabel);
    EncodesToUnmarked(x, dnsLabel, marker);
  }

  /** A label without the marker is carried, so it is the encoding of its input. */
  lemma EncodesToUnmarked(x: seq<byte>, dnsLabel: seq<byte>, marker: seq<byte>)
    requires ValidMarker(marker) && Utf8.Valid(x) && !HyphenEdge(dnsLabel) && FitsLabel(dnsLabel, marker)
    ensures Encode(x, marker) == Success(dnsLabel) <==> Body.Encode(x) == dnsLabel
  {
    HashLabelShape(x, marker);
  }

  // ----- the other ports -----

  /** JavaScript and Python test the edges before the length. */
  function DecodeEdgesFirst(dnsLabel: seq<byte>, marker: seq<byte>): Result {
    if !ValidMarker(marker) then Failure(InvalidEncoding)
    else if marker <= dnsLabel then DecodeMarked(dnsLabel[|marker|..])
    else if HyphenEdge(dnsLabel) then Failure(InvalidEncoding)
    else if |dnsLabel| > MAX_LABEL_LENGTH then Failure(LabelTooLong)
    else Body.Decode(dnsLabel)
  }

  /** The two orders accept the same labels with the same values; the error code differs
      exactly on overlong unmarked labels with a hyphen at an edge. */
  lemma DecodeOrders(dnsLabel: seq<byte>, marker: seq<byte>)
    ensures Decode(dnsLabel, marker).Success? == DecodeEdgesFirst(dnsLabel, marker).Success?
    ensures Decode(dnsLabel, marker) == DecodeEdgesFirst(dnsLabel, marker) <==>
      !(ValidMarker(marker) && !(marker <= dnsLabel) && |dnsLabel| > MAX_LABEL_LENGTH && HyphenEdge(dnsLabel))
  {
  }

  /** Sixty-four hyphens are one text on which the orders disagree. */
  lemma DecodeOrdersDiffer(marker: seq<byte>)
    requires ValidMarker(marker) && marker[0] != HYPHEN
    ensures var text := seq(64, _ => HYPHEN);
            Decode(text, marker) == Failure(LabelTooLong) && DecodeEdgesFirst(text, marker) == Failure(InvalidEncoding)
  {
    var text := seq(64, _ => HYPHEN);
    assert text[0] != marker[0];
  }

  /** Java canonicalises the whole input before it splits. */
  function EncodeCanonicalFirst(input: seq<byte>, marker: seq<byte>): Result {
    Encode(Lower(input), marker)
  }

  lemma CanonicalFirstAgrees(input: seq<byte>, marker: seq<byte>)
    ensures EncodeCanonicalFirst(input, marker) == Encode(input, marker)
  {
    Body.EncodeLower(input);
    Component.EncodeLower(input);
    Utf8.LowerValid(input);
  }
}
