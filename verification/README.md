# DNS Encoded Format: a verified model

DEF maps Unicode strings to ASCII labels and back. This project models its C library and proves what the
format promises of it, for all inputs. The other language ports are compared with the same specification
functions.

Text is a sequence of bytes 0..255 with an explicit length. Caller memory is a Dafny array with a capacity,
and a `size_t *` out-parameter is a `SizeRef` object. A specification function says what each stage computes.
Methods that follow the C code step by step are proved equal to it, and the promises are lemmas about it.

| file | layer |
|---|---|
| `Bytes`, `Memory` | bytes, ASCII classes, lowercasing, masks as ranges; out-parameters, memcpy, write frames |
| `Utf8` | RFC 3629: scalar encoding, byte grammar, the mask validator, cutting at ASCII bytes |
| `Words`, `Sha256Spec`, `Primes`, `Sha256Constants`, `Sha256` | FIPS 180-4, its constants, and the streaming hash object |
| `Traces`, `KnownDigests` | the digests of two published messages, computed round by round |
| `Structure` | greedy recognition of `--`, component lists, join |
| `Component`, `Body`, `NonCanonical`, `Grammar` | tokens, escape printer and scanner, bodies and those not reproduced, derivations, one-pass tokenizer |
| `Characters` | the alphabets written out: what one byte encodes to, what one character or escape decodes to |
| `CapacitySpec`, `CCodec` | status codes per capacity, and the C codec writing into a bounded buffer |
| `Base36` | in-place long division, the two big-integer loops, digit width |
| `Profile`, `CProfile` | reversible and hash labels, injectivity, the C profile functions |
| `Ports` | Rust, Java, Go, JavaScript and Python scans |

The main results:

* `Body.RoundTrip`, `Body.StructuredRecovery`, `Body.EncodeInjective`: decoding an encoding gives the
  lowercased input, for any run of hyphens, and for payload lists joined by the caller.
* `Body.ReencodeIffCanonical`: an accepted body is not always reproduced by re-encoding its value. The lemma
  gives the exact condition on the text of the body. Each way to miss it has a body: `-41` decodes to `A`
  (`NonCanonical.EscapedCapital`), `-2d-2d` to `--` (`EscapedSeparator`), and `a-2d--b` to `a---b`
  (`EscapedHyphenBeforeSeparator`).
* `Characters.KeptCharacters`, `CapitalsAreLowered`, `EscapedBytes`, `EncodedString` determine every encoding in
  written-out characters; `DecodedCharacters`, `DecodedEscape`, `MalformedEscape` do so for one token decoded.
* `Grammar.DecodeIffGrammar`, `Grammar.Unambiguous`, `Grammar.SinglePassAgrees`: the parser is the grammar.
* `CCodec.EncodeBody` and `CCodec.DecodeBody` with `CapacitySpec.EncodeBodyThreshold` and `DecodeBodyThreshold`:
  the index scans compute those functions, write only inside the capacity, and fail exactly when they must. With
  bad input and too little room at once, the position of the first bad component decides the status.
* `Utf8.ValidIffEncoded` with `Utf8.Validate`: the validator accepts exactly the encodings of scalar sequences.
* `Sha256.DigestPieces`: any sequence of updates gives the padded, folded digest of the whole message.
  `KnownDigests.Sha256OfAbc` and `Sha256OfTwoBlocks` give that digest for the two short examples of FIPS 180-2,
  appendix B, and `Sha256Spec.BigSigma0Bits` and its three companions describe the mixing functions bit by bit.
  The streaming methods know the compression only as an abstract `step`; `Sha256.Context.Transform` shows
  separately that the C loops compute it.
* `Base36.DivideFifty` with `Base36.EncodeExact`: the in-place division is exact and uses up its buffer.
  `Base36.EncodeOrder`: the fifty characters are in the byte order of the digests.
* `Profile.MarkerForm`, `EncodeErrors`, `NotDecodableIff`, `DecodeUnmarked`: which markers are valid, and which
  inputs and labels get which code.
* `Profile.Partition`, `Profile.InjectiveUpToCollision`: labels are of two disjoint kinds, and two inputs share
  one only if they agree up to ASCII case or are a SHA-256 collision.

C functions with several phases are cut into several methods (the loop, one pass of it, the tail), which keeps
each proof small. The passes are those of the source and are called in its order.

## Model

| member | source | states |
|---|---|---|
| Bytes.MaskRanges | packages/c/src/def.c:65-82 | the four lead and tail masks select exactly the byte ranges of RFC 3629 |
| Bytes.Nibbles | packages/c/src/def.c:37-38 | shift and mask index the digit table with quotient and remainder by 16 |
| Utf8.Validate | packages/c/src/def.c:57-102 | the branching validator returns true exactly on byte strings of the RFC 3629 section 4 grammar |
| Utf8.CharWidth | packages/c/src/def.c:60-98 | one pass of the loop: the masks and limits give the width of the next character of the grammar, or reject exactly when there is none |
| Utf8.ValidIffEncoded | packages/c/src/def.c:57-102 | valid iff the concatenated encoding of some scalar sequence, and that sequence is unique |
| Utf8.EncodeOfValue | packages/c/src/def.c:65-95 | every character of the grammar encodes a scalar value: no overlong form, no surrogate, nothing above 0x10FFFF |
| Utf8.EncodeAllInjective | packages/c/src/def.c:57-102 | scalar sequences are uniquely decodable from their bytes |
| Utf8.ValidCut | packages/c/src/def.c:463-506 | cutting before an ASCII byte splits validity into the validity of the parts |
| Utf8.LowerValid | packages/rust/src/lib.rs:40-53 | ASCII lowercasing keeps valid strings valid and invalid ones invalid |
| Words.RotrRotates | packages/c/src/def.c:120-122 | shift-or-shift is a rotation of the 32 bits for all ten amounts used |
| Words.WordBytesRoundTrip | packages/c/src/def.c:129-132 | loading the four big-endian bytes of a word gives the word |
| Sha256Spec.BigSigma0Bits | packages/c/src/def.c:152 | bit i of the sum is the parity of bits i + 2, i + 13 and i + 22 modulo 32 |
| Sha256Spec.BigSigma1Bits | packages/c/src/def.c:149 | bit i is the parity of bits i + 6, i + 11 and i + 25 modulo 32 |
| Sha256Spec.SmallSigma0Bits | packages/c/src/def.c:134 | bit i is the parity of bits i + 7 and i + 18 modulo 32 and, below 29, of bit i + 3 |
| Sha256Spec.SmallSigma1Bits | packages/c/src/def.c:135 | bit i is the parity of bits i + 17 and i + 19 modulo 32 and, below 22, of bit i + 10 |
| Sha256Spec.ChMeaning | packages/c/src/def.c:150 | Ch selects each bit from its second or third argument |
| Sha256Spec.MajMeaning | packages/c/src/def.c:153 | Maj is the bitwise majority |
| Sha256Spec.ZeroCountMinimal | packages/c/src/def.c:215-222 | the zero count fills the last block, and no smaller count does (FIPS 180-4 section 5.1.1) |
| Sha256Spec.LengthField | packages/c/src/def.c:224-231 | the eight length bytes have the bit length as big-endian value, below 2^64 |
| Sha256Spec.PadInjective | packages/c/src/def.c:213-232 | padding keeps distinct messages under 2^61 bytes distinct |
| Primes.FirstPrimes | packages/c/src/def.c:110-118 | the list behind the table is the first 64 primes: it starts at 2 and each entry is the next prime after the one before |
| Sha256Constants.RoundConstantsFromPrimes | packages/c/src/def.c:110-118 | each of the 64 table entries is the fraction of the cube root of its prime, in order; `Primes.FirstPrimes` shows which primes |
| Sha256Constants.InitialHashFromPrimes | packages/c/src/def.c:176-184 | the initial words are the fractions of the square roots of the first eight primes |
| Sha256.LoadBlock | packages/c/src/def.c:129-132 | the first schedule loop loads the block as sixteen big-endian words |
| Sha256.Expand | packages/c/src/def.c:134-136 | one schedule entry, summed in the C order, is the recurrence of section 6.2.2 |
| Sha256.ExpandBlock | packages/c/src/def.c:133-137 | the second loop fills all 64 entries with the recursive schedule |
| Sha256.RunRounds | packages/c/src/def.c:139-164 | the eight reassigned variables are the 64-fold round function, whose values on two messages `KnownDigests` computes |
| Sha256.Context.constructor | packages/c/src/def.c:176-186 | a fresh context has hashed the empty message |
| Sha256.Context.Transform | packages/c/src/def.c:124-174 | the C compression is the section 6.2.2 compression, for every state and block |
| Sha256.Context.AddState | packages/c/src/def.c:166-173 | the eight in-place additions |
| Sha256.Context.FillBuffer | packages/c/src/def.c:195-201 | a partly filled buffer is completed and compressed; the copy stays inside the 64 bytes |
| Sha256.Context.AbsorbBlocks | packages/c/src/def.c:202-205 | whole blocks are compressed straight from the data, fewer than 64 bytes remain |
| Sha256.Context.Drain | packages/c/src/def.c:194-206 | after the block phase the state is the fold of all whole blocks and the rest is the tail |
| Sha256.Context.Feed | packages/c/src/def.c:194-210 | state and buffer of the extended message, for every fill and length |
| Sha256.Context.Update | packages/c/src/def.c:188-211 | the invariant is kept and the hashed message grows by exactly the data |
| Sha256.Context.PadMessage | packages/c/src/def.c:213-232 | the two updates of the finaliser append exactly the padding |
| Sha256.Context.Final | packages/c/src/def.c:213-240 | the output is the serialised fold over the padded message |
| Sha256.WriteLength | packages/c/src/def.c:224-231 | the eight assignments write the big-endian bit count |
| Sha256.WriteDigest | packages/c/src/def.c:234-239 | eight words written most significant byte first |
| Sha256.Digest | packages/c/src/def.c:242-247 | the one-shot digest is SHA-256 of its input |
| Sha256.DigestPieces | packages/c/src/def.c:188-240 | any way of cutting a message into updates gives SHA-256 of the whole message |
| KnownDigests.Sha256OfAbc | packages/c/src/def.c:124-247 | the digest of `abc`, 32 bytes written out (FIPS 180-2 appendix B.1) |
| KnownDigests.Sha256OfTwoBlocks | packages/c/src/def.c:124-247 | the digest of the 56-byte message of appendix B.2, which pads to two blocks |
| Traces.ParseWords | packages/c/src/def.c:129-132 | parsing a serialised block gives its sixteen words back |
| Sha256.BufferIndex | packages/c/src/def.c:190 | the buffer index read from the wrapping 64-bit counter is the message length modulo 64 |
| Sha256.LengthFieldWraps | packages/c/src/def.c:217-231 | beyond 2^61 bytes the length field is the bit length modulo 2^64 |
| Structure.JoinSplit | packages/rust/src/lib.rs:55-61 | joining the greedy components gives the string back |
| Structure.SplitGreedy | packages/c/src/def.c:473-488 | no component holds `--`, and none before a separator ends in a hyphen |
| Structure.GreedyIffSplitJoin | packages/rust/src/lib.rs:114-119 | component lists survive join and split exactly when they have that shape |
| Structure.SplitLower | packages/java/src/main/java/io/idrto/def/Def.java:215-217 | lowercasing moves, adds and removes no separator |
| Structure.SplitValid | packages/c/src/def.c:473-487 | validating each component is validating the whole input |
| Component.ComponentGrammar | docs/rfc.md:203-206 | the scanner completes exactly on COMPONENT, and returns its only token list |
| Component.ScanMaximal | packages/c/src/def.c:330-358 | the tokens scanned before a failure are the longest token list whose text starts the input |
| Component.DecodeErrors | docs/rfc.md:203-206 | invalid_escape iff the text is not a COMPONENT, invalid_utf8 iff it is one whose payload is not UTF-8 |
| Component.DecodeEncode | packages/go/def/def.go:94-120 | a component encoding decodes to the lowercased payload, or is rejected if that is not UTF-8 |
| Component.EncodeInjective | packages/go/def/def.go:63-65 | component encodings agree iff the payloads agree up to ASCII case |
| Component.ReencodeComponent | docs/rfc.md:110-117 | a component is what the encoder prints for its payload iff every escape denotes a byte the encoder escapes |
| Component.EncodeNoSeparator | docs/rfc.md:224-225 | component output holds no `--` and never ends in a hyphen |
| Component.CompleteNoSeparator | packages/python/src/dns_encoded_format/__init__.py:71-73 | a component that scans completely holds no `--` |
| Component.EncodeLength | packages/c/src/def.c:297-310 | exact length: two more bytes for each escaped one |
| Characters.CapitalsAreLowered | packages/c/src/def.c:299-301 | the capitals `A` to `Z` encode to `a` to `z`, in order |
| Characters.KeptCharacters | docs/rfc.md:110-111 | a byte encodes to itself iff it is one of the 36 characters a to z and 0 to 9 |
| Characters.EscapedBytes | docs/rfc.md:110-117 | every other byte but a capital encodes to a hyphen and the two digits of `0123456789abcdef` at its quotient and remainder by 16 |
| Characters.EncodedString | packages/c/src/def.c:473-505 | encodings are put together from those of single bytes, with `--` standing for itself |
| Characters.DecodedCharacters | packages/c/src/def.c:330-343 | the same 36 characters are the only single ones that decode, each to itself |
| Characters.DecodedEscape | packages/c/src/def.c:348-362 | a hyphen and the two digits of a byte decode to that byte below 128 and to invalid_utf8 above |
| Characters.MalformedEscape | docs/rfc.md:203-211 | no other two characters behind a hyphen are an escape, capital digits included |
| Body.SplitEncode | docs/rfc.md:261-266 | the separators seen in an encoding are those of the input, and each component is the component encoding |
| Body.StructuredRecovery | packages/rust/src/lib.rs:49-61 | joined component encodings split into those encodings and decode to the lowercased payloads |
| Body.RoundTrip | packages/c/src/def.c:463-559 | decode(encode(x)) is the lowercased x for valid UTF-8 and invalid_utf8 otherwise |
| Body.EncodeLower | packages/java/src/main/java/io/idrto/def/Def.java:215-217 | canonicalising the whole input first gives the same body |
| Body.EncodeInjective | packages/c/src/def.c:463-508 | bodies agree iff the inputs agree up to ASCII case |
| Body.ReencodeIffCanonical | packages/c/src/def.c:463-559 | encode(decode(y)) == y iff all escapes are canonical, no component has adjacent `-2d` tokens and none but the last ends in one |
| NonCanonical.EscapedCapital | packages/c/src/def.c:463-559 | `-41` decodes to `A`, which encodes to `a` |
| NonCanonical.EscapedSeparator | packages/c/src/def.c:463-559 | `-2d-2d` decodes to `--`, which encodes to `--`: the value is a separator |
| NonCanonical.EscapedHyphenBeforeSeparator | packages/c/src/def.c:463-559 | `a-2d--b` decodes to `a---b`, which encodes to `a---2db`: the escaped hyphen moves behind the separator |
| Body.ReencodeIdempotent | packages/c/src/def.c:463-559 | re-encoding a decoded body gives a canonical body, which is then stable |
| Body.DecodedValid | packages/c/src/def.c:360-362 | decoded bodies are valid UTF-8 as a whole |
| Body.DecodeErrors | packages/c/src/def.c:510-559 | a body fails with invalid_escape or invalid_utf8 and with no other code |
| Body.EncodeLength | packages/c/src/def.c:463-508 | exact length: two more bytes for each input byte neither alphanumeric nor in a greedy separator |
| Grammar.Unambiguous | docs/rfc.md:203-208 | no body has two derivations of DEF-VALUE |
| Grammar.DecodeIffGrammar | packages/c/src/def.c:510-559 | accepted exactly when some derivation has valid payloads, and then the result is those payloads joined |
| Grammar.SinglePassAgrees | packages/c/src/def.c:524-551 | a one-pass tokenizer and split-then-scan give the same parse on every string |
| CapacitySpec.DecodeBytesThreshold | packages/c/src/def.c:321-367 | which status one component gets: room for its payload is decided before malformed text, and that before invalid UTF-8 |
| CapacitySpec.EncodeStatusVerdict | packages/c/src/def.c:463-508 | the loop's status in closed form: INVALID_UTF8 iff the first invalid component is reached with room left, else OK or BUFFER_TOO_SMALL by total length |
| CapacitySpec.DecodeStatusVerdict | packages/c/src/def.c:510-559 | the loop's status in closed form: the error of the first failing component iff the payload before it and its own tokens fit, else OK or BUFFER_TOO_SMALL |
| CapacitySpec.EncodeBodyThreshold | packages/c/src/def.c:463-508 | the exact status: OK iff the input is UTF-8 and fits; with invalid input INVALID_UTF8 iff the first component is invalid or the encoding before the first invalid one leaves room for its separator and a terminator |
| CapacitySpec.DecodeBodyThreshold | packages/c/src/def.c:510-559 | the exact status: OK iff the body is valid and fits; for a failing body its error iff the payload before the first failing component plus its token count is below the capacity, else BUFFER_TOO_SMALL |
| CapacitySpec.BufferRoundTrip | packages/c/src/def.c:463-559 | encoding then decoding through two buffers is OK iff the input is UTF-8, the first exceeds the exact encoded length and the second the input length |
| CapacitySpec.TripleCapacitySuffices | packages/c/src/def.c:390-396 | 3n + 1 bytes never run out, for the body or the component encoding of n bytes |
| CCodec.AppendBodyChar | packages/c/src/def.c:22-29 | one byte appended iff the terminator still fits; nothing else changes, and nothing at all on failure |
| CCodec.AppendBodyEscape | packages/c/src/def.c:31-41 | one escape appended iff it and the terminator fit; nothing else changes, and nothing at all on failure |
| CCodec.HexChars | packages/c/src/def.c:37-38 | the table lookups print the lowercase escape of the byte |
| CCodec.EmitBytes | packages/c/src/def.c:297-310 | the encoding loop writes the component encoding or stops for room |
| CCodec.EncodeBytes | packages/c/src/def.c:283-319 | text, terminator and length on success; exact status; writes inside the capacity; length untouched on failure |
| CCodec.ReadToken | packages/c/src/def.c:330-351 | one pass of the decoder reads exactly one grammar token or reports none |
| CCodec.ReadBytes | packages/c/src/def.c:330-357 | the decoding loop writes the payload of the scanned tokens, stops for room iff they do not fit, and otherwise reports text that is no token |
| CCodec.DecodeBytes | packages/c/src/def.c:321-367 | the payload of the scanned tokens, with the first failure in code order |
| CCodec.EncodeComponent | packages/c/src/def.c:436-449 | the component entry point |
| CCodec.DecodeComponent | packages/c/src/def.c:451-461 | the component entry point, with its zero-capacity check |
| CCodec.EncodeStep | packages/c/src/def.c:473-505 | one pass of the scan keeps the written prefix and the components left in step |
| CCodec.EncodeBody | packages/c/src/def.c:463-508 | the index scan writes the split, map, join encoding, or fails with the status of the capacity rules |
| CCodec.DecodeStep | packages/c/src/def.c:524-556 | one pass of the decoding scan |
| CCodec.DecodeBody | packages/c/src/def.c:510-559 | the index scan writes the decoded body, or fails with the status of the capacity rules |
| Base36.DivideBy36 | packages/c/src/def.c:269-274 | one in-place pass divides the buffer's value by 36; every quotient digit fits a byte |
| Base36.DivideFifty | packages/c/src/def.c:268-276 | fifty passes write the digits of the value and leave the buffer all zero |
| Base36.Base36Encode | packages/c/src/def.c:249-281 | digits, terminator and length, or the two size errors with nothing written |
| Base36.DigestWidth | packages/c/src/def.c:268 | 36^49 < 2^256 < 36^50 |
| Base36.EncodeExact | packages/c/src/def.c:249-281 | the digits have the big-endian value of the 32 bytes |
| Base36.DigitText | packages/c/src/def.c:7 | digit n is character n of `0123456789abcdefghijklmnopqrstuvwxyz` |
| Base36.EncodeOrder | packages/c/src/def.c:249-281 | one form precedes another in byte order iff its digest does, and iff its value is smaller |
| Base36.EncodeInjective | packages/c/src/def.c:249-281 | distinct digests have distinct digits |
| Base36.DigitsVal36 | packages/c/src/def.c:7 | every digit string is the digit string of its value |
| Base36.FortyNineDigitsCollide | packages/c/include/def.h:12 | with 49 digits two different digests would share a form |
| Base36.DivideUntilZero | packages/python/src/dns_encoded_format/__init__.py:110-119 | divide until zero, reverse and left-pad gives the same fifty characters |
| Base36.DivideFiftyTimes | packages/java/src/main/java/io/idrto/def/Def.java:173-187 | fifty big-integer divisions give the same fifty characters |
| Profile.MarkerForm | docs/rfc.md:308-311 | valid iff 1 to 11 of the 37 characters a to z, 0 to 9 and hyphen, then `--`, and the first four bytes are not `xn--` |
| Profile.ReservedPrefix | packages/c/src/def.c:378-380 | no marker that starts with `xn--` is valid |
| Profile.InvalidMarker | packages/c/src/def.c:577-580 | both profile functions report an invalid marker as invalid_encoding before anything else |
| Profile.EncodeOutcome | packages/c/src/def.c:561-631 | when profile encoding succeeds; labels fit 63 bytes and LABEL_TOO_LONG is unreachable |
| Profile.HyphenEdgeInput | packages/c/src/def.c:598-602 | the edge check rejects exactly empty input, a first byte that is not alphanumeric, or a last component that is empty |
| Profile.EncodeErrors | packages/c/src/def.c:577-602 | invalid_utf8 iff the marker is valid and the input is not UTF-8; invalid_encoding iff the marker is invalid or a UTF-8 input has a hyphen at an edge of its encoding; no other code |
| Profile.Partition | packages/c/src/def.c:604-670 | each label is either reversible and decodes to the lowercased input, or a hash label and not decodable; never both |
| Profile.NotDecodableIff | packages/c/src/def.c:647-661 | not_decodable iff the label is a valid marker and the fifty digits of some n < 36^50; any other label behind a valid marker is invalid_encoding |
| Profile.DecodeUnmarked | packages/c/src/def.c:663-670 | without the marker: label_too_long iff over 63 bytes, invalid_encoding iff at most 63 with a hyphen at an edge or empty, else the body decides |
| Profile.HashLabelsEqual | packages/c/src/def.c:418-432 | hash labels agree iff the digests of the component encodings agree |
| Profile.SameLabel | packages/c/src/def.c:561-631 | labels agree iff the inputs agree up to case or both are hashed with equal digests |
| Profile.InjectiveUpToCollision | packages/c/src/def.c:561-631 | equal labels of inputs that differ beyond case are a SHA-256 collision |
| Profile.ReencodeLabel | packages/c/src/def.c:633-671 | a decodable label is reproduced from its value iff its text is canonical |
| Profile.DecodeOrders | packages/js/src/index.ts:236-247 | testing edges before length changes no result but the error code of overlong labels with an edge hyphen |
| Profile.DecodeOrdersDiffer | packages/js/src/index.ts:236-247 | for every marker that does not start with a hyphen, sixty-four hyphens are too long in one order and malformed in the other |
| Profile.CanonicalFirstAgrees | packages/java/src/main/java/io/idrto/def/Def.java:215-239 | canonicalising first gives the same profile label, reversible or hashed |
| CProfile.ValidateMarker | packages/c/src/def.c:369-388 | OK exactly on valid markers, which `Profile.MarkerForm` writes out |
| CProfile.CheckedEncodedCapacity | packages/c/src/def.c:390-396 | the size check passes iff 3n + 1 does not wrap |
| CProfile.SixtyFourSuffice | packages/c/src/def.c:561-631 | with 64 bytes of output only allocation or an enormous input yields BUFFER_TOO_SMALL |
| CProfile.WriteHashLabel | packages/c/src/def.c:419-432 | marker followed by the fifty digits, terminated |
| CProfile.EncodeProfileHash | packages/c/src/def.c:398-434 | hash label of the component, or the size statuses in code order |
| CProfile.CarryCore | packages/c/src/def.c:604-615 | the encoding and its terminator are copied iff they fit |
| CProfile.ChooseLabel | packages/c/src/def.c:598-627 | edge check, then encoding or hash, as the profile specification says |
| CProfile.HashInput | packages/c/src/def.c:617-627 | the fallback hashes the component encoding of the whole input |
| CProfile.EncodeProfile | packages/c/src/def.c:561-631 | exact status for every input, marker, capacity and allocation outcome; on OK the label of the specification |
| CProfile.EncodeProfileVerdict | packages/c/src/def.c:561-631 | when each status is returned: room is asked for only after the marker, the sizes, UTF-8 and the edges |
| CProfile.CheckDigest | packages/c/src/def.c:652-660 | marked labels are not decodable or malformed, by the digit test that `Profile.NotDecodableIff` describes; never parsed as bodies |
| CProfile.DecodeProfile | packages/c/src/def.c:633-671 | exact status; on OK the decoded label, terminated, inside the capacity |
| CProfile.DecodeProfileVerdict | packages/c/src/def.c:633-671 | OK iff the label decodes and fits; the codes of the profile layer at any capacity, those of the body by the capacity rules |
| CProfile.ProfileBufferRoundTrip | packages/c/src/def.c:561-671 | a label that was encoded is not decodable if it was hashed; otherwise decoding is OK iff the capacity exceeds the input length |
| Ports.CanonicalizeInPlace | packages/rust/src/lib.rs:41-47 | the in-place loop lowercases exactly the ASCII capitals |
| Ports.EncodeComponent | packages/go/def/def.go:37-65 | the appending loop gives the component encoding |
| Ports.IndexOfSeparator | packages/java/src/main/java/io/idrto/def/Def.java:95 | the index found is where the next greedy component ends |
| Ports.JavaEncodeBody | packages/java/src/main/java/io/idrto/def/Def.java:91-102 | the indexOf scan is split, map, join |
| Ports.JavaDecodeBody | packages/java/src/main/java/io/idrto/def/Def.java:160-171 | same values and same first error as the body decoder |
| Ports.DecodeComponent | packages/go/def/def.go:94-120 | the plain tokenizer loop decodes the component |
| Ports.CheckIsRedundant | packages/js/src/index.ts:86-130 | the explicit `--` check changes neither acceptance nor error code |
| Ports.CheckedDecodeComponent | packages/python/src/dns_encoded_format/__init__.py:71-101 | the tokenizer behind that check decodes the same |
| Ports.GoEncodeBody | packages/go/def/def.go:67-73 | overwriting the split components in place and joining gives the body |
| Ports.EncodeInPlace | packages/go/def/def.go:69-71 | every element of the array is replaced by its component encoding |
| Ports.GoDecodeBody | packages/go/def/def.go:122-132 | same values and same first error as the body decoder |

## Left out

- C strings: `strlen`, `char` signedness, aliasing of input and output; lengths are explicit, so a decoded NUL byte is ordinary data.
- Sha256.Context.Update: `idx + len` is computed without `size_t` wrap-around, which only an input within 63 bytes of `SIZE_MAX` could cause.
- Base36.DivideBy36: `(rem << 8) | buf[j]` is written as `rem * 256 + buf[j]`; the 64-bit shifts of the bit counter are likewise written as division and remainder by powers of two.
- CProfile.EncodeProfile: the outcome of the two allocations is one boolean parameter, and freeing is not modelled.
- The default-marker wrappers `def_encode` and `def_decode`, which only pass a constant marker.
- The profile functions of the other ports beyond the two differences stated in `Profile.DecodeOrders` and `Profile.CanonicalFirstAgrees`.
- The pure split, map and join bodies of Rust, JavaScript and Python: they are the specification functions of `Body`.
- Library SHA-256, Web Crypto, library UTF-8 codecs, lone surrogates of UTF-16 strings, and the byte order mark JavaScript's `TextDecoder` may drop.
- The .NET port, whose literal test narrows a character to a byte first, so it accepts text the format does not.
- IDNA and Punycode policy, application grammars, C++ wrappers, test vectors and build files.
- Any claim about the strength of SHA-256: the collision theorem is a reduction.
