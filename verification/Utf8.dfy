/** Strict UTF-8: the scalar encoding of RFC 3629 section 3, the byte grammar of
    section 4, and the branching mask validator of the C library. */
module Utf8 {
  import opened Bytes

  // ----- section 3: scalar values to bytes -----

  type Scalar = v: int | 0 <= v <= 0x10ffff && !(0xd800 <= v <= 0xdfff)

  /** The bits of `v` in groups of six, behind the length marker. */
  function Encode(v: Scalar): (s: seq<byte>)
    ensures 1 <= |s| <= 4
  {
    var x, y, z := v / 64, v / 64 / 64, v / 64 / 64 / 64;
    if v <= 0x7f then [v]
    else if v <= 0x7ff then [0xc0 + x, 0x80 + v % 64]
    else if v <= 0xffff then [0xe0 + y, 0x80 + x % 64, 0x80 + v % 64]
    else
      assert x <= 17407 && y <= 271 && z <= 4;
      [0xf0 + z, 0x80 + y % 64, 0x80 + x % 64, 0x80 + v % 64]
  }

  function EncodeAll(vs: seq<Scalar>): seq<byte> {
    if vs == [] then [] else Encode(vs[0]) + EncodeAll(vs[1..])
  }

  // ----- section 4: the byte grammar -----

  predicate IsTail(b: byte) { 0x80 <= b <= 0xbf }

  predicate IsUtf8Two(a: byte, b: byte) {
    0xc2 <= a <= 0xdf && IsTail(b)
  }

  predicate IsUtf8Three(a: byte, b: byte, c: byte) {
    && IsTail(c)
    && (|| (a == 0xe0 && 0xa0 <= b <= 0xbf)
        || (0xe1 <= a <= 0xec && IsTail(b))
        || (a == 0xed && 0x80 <= b <= 0x9f)
        || (0xee <= a <= 0xef && IsTail(b)))
  }

  predicate IsUtf8Four(a: byte, b: byte, c: byte, d: byte) {
    && IsTail(c) && IsTail(d)
    && (|| (a == 0xf0 && 0x90 <= b <= 0xbf)
        || (0xf1 <= a <= 0xf3 && IsTail(b))
        || (a == 0xf4 && 0x80 <= b <= 0x8f))
  }

  /** The length of the character at the start of `s`, or 0 if there is none. */
  function CharLength(s: seq<byte>): (n: nat)
    ensures n <= 4 && n <= |s|
  {
    if |s| >= 1 && s[0] <= 0x7f then 1
    else if |s| >= 2 && IsUtf8Two(s[0], s[1]) then 2
    else if |s| >= 3 && IsUtf8Three(s[0], s[1], s[2]) then 3
    else if |s| >= 4 && IsUtf8Four(s[0], s[1], s[2], s[3]) then 4
    else 0
  }

  predicate Valid(s: seq<byte>) {
    s == [] || (CharLength(s) > 0 && Valid(s[CharLength(s)..]))
  }

  // ----- the grammar is exactly the encoding -----

  lemma EncodedCharLength(v: Scalar, rest: seq<byte>)
    ensures CharLength(Encode(v) + rest) == |Encode(v)|
  {
    var e := Encode(v);
    var x, y, z := v / 64, v / 64 / 64, v / 64 / 64 / 64;
    assert v == 64 * x + v % 64 && x == 64 * y + x % 64 && y == 64 * z + y % 64;
    assert forall i | 0 <= i < |e| :: (e + rest)[i] == e[i];
  }

  function Payload(b: byte, marker: byte): nat
    requires marker <= b
  {
    (b as int) - marker
  }

  function Group(high: nat, tail: byte): (v: nat)
    requires IsTail(tail)
    ensures v / 64 == high && v % 64 == tail - 0x80
  {
    high * 64 + (tail as int - 0x80)
  }

  /** The bits of one character, put back together. */
  function Value(c: seq<byte>): nat
    requires |c| > 0 && CharLength(c) == |c|
  {
    if |c| == 1 then c[0]
    else if |c| == 2 then Group(Payload(c[0], 0xc0), c[1])
    else if |c| == 3 then Group(Group(Payload(c[0], 0xe0), c[1]), c[2])
    else Group(Group(Group(Payload(c[0], 0xf0), c[1]), c[2]), c[3])
  }

  /** Every character of the grammar encodes a scalar value. */
  lemma EncodeOfValue(c: seq<byte>)
    requires |c| > 0 && CharLength(c) == |c|
    ensures var v := Value(c); 0 <= v <= 0x10ffff && !(0xd800 <= v <= 0xdfff) && Encode(v) == c
  {
    if |c| == 3 {
      var x := Group(Payload(c[0], 0xe0), c[1]);
      assert Value(c) == Group(x, c[2]);
      assert x >= 32 && !(0x360 <= x <= 0x37f);
    } else if |c| == 4 {
      var y := Group(Payload(c[0], 0xf0), c[1]);
      var x := Group(y, c[2]);
      assert Value(c) == Group(x, c[3]);
      assert 16 <= y <= 271;
    }
  }

  function DecodeChar(s: seq<byte>): (v: Scalar)
    requires CharLength(s) > 0
    ensures Encode(v) == s[..CharLength(s)]
  {
    var c := s[..CharLength(s)];
    assert CharLength(c) == |c|;
    EncodeOfValue(c);
    Value(c)
  }

  lemma EncodeInjective(v: Scalar, w: Scalar)
    requires Encode(v) == Encode(w)
    ensures v == w
  {
    EncodedCharLength(v, []);
    EncodedCharLength(w, []);
    ValueOfEncode(v);
    ValueOfEncode(w);
  }

  lemma ValueOfEncode(v: Scalar)
    ensures CharLength(Encode(v)) == |Encode(v)| && Value(Encode(v)) == v
  {
    EncodedCharLength(v, []);
    assert Encode(v) + [] == Encode(v);
  }

  lemma {:induction false} EncodeAllValid(vs: seq<Scalar>)
    ensures Valid(EncodeAll(vs))
  {
    if vs != [] {
      EncodedCharLength(vs[0], EncodeAll(vs[1..]));
      EncodeAllValid(vs[1..]);
      assert EncodeAll(vs)[|Encode(vs[0])|..] == EncodeAll(vs[1..]);
    }
  }

  /** The scalar values of a valid byte string. */
  function {:induction false} DecodeAll(s: seq<byte>): (vs: seq<Scalar>)
    requires Valid(s)
    ensures EncodeAll(vs) == s
  {
    if s == [] then [] else [DecodeChar(s)] + DecodeAll(s[CharLength(s)..])
  }

  /** The encoding is uniquely decodable. */
  lemma {:induction false} EncodeAllInjective(vs: seq<Scalar>, ws: seq<Scalar>)
    requires EncodeAll(vs) == EncodeAll(ws)
    ensures vs == ws
  {
    if vs != [] && ws != [] {
      var v, w := Encode(vs[0]), Encode(ws[0]);
      EncodedCharLength(vs[0], EncodeAll(vs[1..]));
      EncodedCharLength(ws[0], EncodeAll(ws[1..]));
      assert v == EncodeAll(vs)[..|v|] && w == EncodeAll(ws)[..|w|];
      EncodeInjective(vs[0], ws[0]);
      assert EncodeAll(vs[1..]) == EncodeAll(vs)[|v|..];
      assert EncodeAll(ws[1..]) == EncodeAll(ws)[|w|..];
      EncodeAllInjective(vs[1..], ws[1..]);
    }
  }

  /** Valid exactly when some scalar sequence encodes to the bytes, and then only one does. */
  lemma ValidIffEncoded(s: seq<byte>)
    ensures Valid(s) <==> exists vs: seq<Scalar> :: EncodeAll(vs) == s
    ensures forall vs: seq<Scalar>, ws: seq<Scalar> :: EncodeAll(vs) == s && EncodeAll(ws) == s ==> vs == ws
  {
    if Valid(s) {
      assert EncodeAll(DecodeAll(s)) == s;
    }
    forall vs: seq<Scalar> | EncodeAll(vs) == s
      ensures Valid(s)
    {
      EncodeAllValid(vs);
    }
    forall vs: seq<Scalar>, ws: seq<Scalar> | EncodeAll(vs) == s && EncodeAll(ws) == s
      ensures vs == ws
    {
      EncodeAllInjective(vs, ws);
    }
  }

  // ----- the mask validator -----

  function Mask(b: byte, m: bv8): bv8 { (b as bv8) & m }

  method Validate(bytes: seq<byte>) returns (ok: bool)
    ensures ok == Valid(bytes)
  {
    var i := 0;
    while i < |bytes|
      invariant 0 <= i <= |bytes|
      invariant Valid(bytes) == Valid(bytes[i..])
    {
      var n := CharWidth(bytes, i);
      if n == 0 {
        return false;
      }
      assert bytes[i..][n..] == bytes[i + n..];
      i := i + n;
    }
    return true;
  }

  /** One pass of the loop: the width of the character at `i`, or 0 where the validator gives up. */
  method CharWidth(bytes: seq<byte>, i: nat) returns (n: nat)
    requires i < |bytes|
    ensures n == CharLength(bytes[i..])
  {
    var b := bytes[i];
    MaskRangesAt(bytes[i..]);
    if b <= 0x7f {
      return 1;
    }
    if Mask(b, 0xe0) == 0xc0 {
      if i + 1 >= |bytes| || Mask(bytes[i + 1], 0xc0) != 0x80 || b < 0xc2 {
        return 0;
      }
      return 2;
    }
    if Mask(b, 0xf0) == 0xe0 {
      if i + 2 >= |bytes| || Mask(bytes[i + 1], 0xc0) != 0x80 || Mask(bytes[i + 2], 0xc0) != 0x80 {
        return 0;
      }
      if b == 0xe0 && bytes[i + 1] < 0xa0 {
        return 0;
      }
      if b == 0xed && bytes[i + 1] >= 0xa0 {
        return 0;
      }
      return 3;
    }
    if Mask(b, 0xf8) == 0xf0 {
      if i + 3 >= |bytes| || Mask(bytes[i + 1], 0xc0) != 0x80 || Mask(bytes[i + 2], 0xc0) != 0x80 ||
         Mask(bytes[i + 3], 0xc0) != 0x80 {
        return 0;
      }
      if b == 0xf0 && bytes[i + 1] < 0x90 {
        return 0;
      }
      if b == 0xf4 && bytes[i + 1] > 0x8f {
        return 0;
      }
      if b > 0xf4 {
        return 0;
      }
      return 4;
    }
    return 0;
  }

  lemma MaskRangesAt(s: seq<byte>)
    requires s != []
    ensures forall k | 0 <= k < |s| && k < 4 :: (Mask(s[k], 0xc0) == 0x80) == IsTail(s[k])
    ensures (Mask(s[0], 0xe0) == 0xc0) == (0xc0 <= s[0] < 0xe0)
    ensures (Mask(s[0], 0xf0) == 0xe0) == (0xe0 <= s[0] < 0xf0)
    ensures (Mask(s[0], 0xf8) == 0xf0) == (0xf0 <= s[0] < 0xf8)
  {
    forall k | 0 <= k < |s| && k < 4
      ensures (Mask(s[k], 0xc0) == 0x80) == IsTail(s[k])
    {
      MaskRanges(s[k]);
    }
    MaskRanges(s[0]);
  }

  // ----- self-synchronisation at ASCII bytes -----

  /** No character reaches across an ASCII byte. */
  lemma CharStopsAtAscii(s: seq<byte>, t: seq<byte>)
    requires s != [] && t != [] && t[0] < 0x80
    ensures CharLength(s + t) == CharLength(s)
  {
    assert forall i | 0 <= i < |s| :: (s + t)[i] == s[i];
    assert (s + t)[|s|] == t[0];
  }

  /** Cutting before an ASCII byte cuts between characters. */
  lemma {:induction false} ValidCut(s: seq<byte>, t: seq<byte>)
    requires t == [] || t[0] < 0x80
    ensures Valid(s + t) == (Valid(s) && Valid(t))
    decreases |s|
  {
    if s == [] {
      assert s + t == t;
    } else if t == [] {
      assert s + t == s;
    } else {
      CharStopsAtAscii(s, t);
      var n := CharLength(s);
      if n > 0 {
        assert (s + t)[n..] == s[n..] + t;
        ValidCut(s[n..], t);
      }
    }
  }

  lemma {:induction false} AsciiValid(t: seq<byte>, rest: seq<byte>)
    requires forall i | 0 <= i < |t| :: t[i] < 0x80
    ensures Valid(t + rest) == Valid(rest)
  {
    if t == [] {
      assert t + rest == rest;
    } else {
      assert (t + rest)[1..] == t[1..] + rest;
      AsciiValid(t[1..], rest);
    }
  }

  lemma {:induction false} LowerValid(s: seq<byte>)
    ensures Valid(Lower(s)) == Valid(s)
    decreases |s|
  {
    if s != [] {
      var n := CharLength(s);
      assert CharLength(Lower(s)) == n;
      if n > 0 {
        assert Lower(s)[n..] == Lower(s[n..]);
        LowerValid(s[n..]);
      }
    }
  }
}
