/** The fixed-width base-36 form of a digest: in-place long division on bytes,
    and the two big-integer loops of the other ports. */
module Base36 {
  import opened Bytes
  import opened Memory

  const HASH_BODY_LENGTH: nat := 50
  const BASE36_ALPHABET: string := "0123456789abcdefghijklmnopqrstuvwxyz"

  // ----- positional values -----

  function Pow(b: nat, k: nat): nat {
    if k == 0 then 1 else b * Pow(b, k - 1)
  }

  function Digit(n: nat): byte
    requires n < 36
  {
    if n < 10 then 0x30 + n else 0x57 + n
  }

  /** The digits are the characters of the C table, in its order. */
  lemma DigitText(n: nat)
    requires n < 36
    ensures Digit(n) == "0123456789abcdefghijklmnopqrstuvwxyz"[n] as int
  {
  }

  predicate IsDigit(c: byte) {
    (c >= 0x30 && c <= 0x39) || (c >= 0x61 && c <= 0x7a)
  }

  function DigitValue(c: byte): (n: nat)
    requires IsDigit(c)
    ensures n < 36 && Digit(n) == c
  {
    if c <= 0x39 then (c as int) - 0x30 else (c as int) - 0x57
  }

  predicate AllDigits(s: seq<byte>) {
    forall i | 0 <= i < |s| :: IsDigit(s[i])
  }

  function Val36(s: seq<byte>): nat
    requires AllDigits(s)
  {
    if s == [] then 0 else Val36(s[..|s| - 1]) * 36 + DigitValue(s[|s| - 1])
  }

  /** The `k` lowest base-36 digits of `n`, most significant first. */
  function Digits(n: nat, k: nat): (s: seq<byte>)
    ensures |s| == k && AllDigits(s)
  {
    if k == 0 then [] else Digits(n / 36, k - 1) + [Digit(n % 36)]
  }

  /** `n` after `k` divisions by 36. */
  function Quotient(n: nat, k: nat): nat {
    if k == 0 then n else Quotient(n / 36, k - 1)
  }

  // ----- values, bounds and injectivity -----

  lemma {:induction false} Val36Digits(n: nat, k: nat)
    requires n < Pow(36, k)
    ensures Val36(Digits(n, k)) == n
  {
    if k > 0 {
      Val36Digits(n / 36, k - 1);
      assert Digits(n, k)[..k - 1] == Digits(n / 36, k - 1);
    }
  }

  lemma {:induction false} DigitsVal36(s: seq<byte>)
    requires AllDigits(s)
    ensures Val36(s) < Pow(36, |s|) && Digits(Val36(s), |s|) == s
  {
    if s != [] {
      DigitsVal36(s[..|s| - 1]);
      var d := DigitValue(s[|s| - 1]);
      assert Val36(s) / 36 == Val36(s[..|s| - 1]) && Val36(s) % 36 == d;
    }
  }

  lemma {:induction false} Val256Bound(s: seq<byte>)
    ensures Val256(s) < Pow(256, |s|)
  {
    if s != [] {
      Val256Bound(s[..|s| - 1]);
    }
  }

  lemma {:induction false} Val256Injective(s: seq<byte>, t: seq<byte>)
    requires |s| == |t| && Val256(s) == Val256(t)
    ensures s == t
  {
    if s != [] {
      var n := |s| - 1;
      Val256Injective(s[..n], t[..n]);
      assert s == s[..n] + [s[n]] && t == t[..n] + [t[n]];
    }
  }

  lemma {:induction false} Val256Zero(s: seq<byte>)
    requires Val256(s) == 0
    ensures forall i | 0 <= i < |s| :: s[i] == 0
  {
    if s != [] {
      var n := |s| - 1;
      Val256Zero(s[..n]);
      assert forall i | 0 <= i < n :: s[i] == s[..n][i];
    }
  }

  lemma {:induction false} PowAdd(b: nat, m: nat, n: nat)
    ensures Pow(b, m + n) == Pow(b, m) * Pow(b, n)
  {
    if m > 0 {
      PowAdd(b, m - 1, n);
      assert Pow(b, m + n) == b * Pow(b, m - 1 + n);
      MulAssociates(b, Pow(b, m - 1), Pow(b, n));
    }
  }

  lemma MulAssociates(x: nat, y: nat, z: nat)
    ensures x * (y * z) == (x * y) * z
  {
  }

  lemma PowersOf36()
    ensures Pow(36, 49) == 0x281f_41af_4a51_83b4_9a56_3517_ed97_5426_2335_5e24_0000_0000_0000_0000_0000_0000
    ensures Pow(36, 50) == 36 * Pow(36, 49)
  {
    assert Pow(36, 1) == 36 * Pow(36, 0) == 36;
    PowAdd(36, 1, 1);
    PowAdd(36, 2, 1);
    PowAdd(36, 3, 3);
    PowAdd(36, 6, 6);
    PowAdd(36, 12, 12);
    PowAdd(36, 24, 24);
    PowAdd(36, 48, 1);
  }

  lemma PowersOf256()
    ensures Pow(256, 32) == 0x1_0000_0000_0000_0000_0000_0000_0000_0000_0000_0000_0000_0000_0000_0000_0000_0000
  {
    assert Pow(256, 1) == 256 * Pow(256, 0) == 256;
    PowAdd(256, 1, 1);
    PowAdd(256, 2, 2);
    PowAdd(256, 4, 4);
    PowAdd(256, 8, 8);
    PowAdd(256, 16, 16);
  }

  /** Fifty base-36 digits hold 32 bytes; forty-nine do not. */
  lemma DigestWidth()
    ensures Pow(36, 49) < Pow(256, 32) < Pow(36, 50)
  {
    PowersOf36();
    PowersOf256();
  }

  /** The base-36 form of a 32-byte digest. */
  function Encode(data: seq<byte>): (s: seq<byte>)
    ensures |s| == HASH_BODY_LENGTH && AllDigits(s)
  {
    Digits(Val256(data), HASH_BODY_LENGTH)
  }

  /** The digits have the value of the digest, so distinct digests have distinct forms. */
  lemma EncodeExact(x: seq<byte>)
    requires |x| == 32
    ensures Val36(Encode(x)) == Val256(x)
  {
    Val256Bound(x);
    DigestWidth();
    Val36Digits(Val256(x), 50);
  }

  lemma EncodeInjective(x: seq<byte>, y: seq<byte>)
    requires |x| == |y| == 32
    ensures Encode(x) == Encode(y) <==> x == y
  {
    EncodeExact(x);
    EncodeExact(y);
    if Encode(x) == Encode(y) {
      Val256Injective(x, y);
    }
  }

  // ----- order -----

  /** Byte order of two strings that differ: the first difference decides. */
  predicate Precedes(s: seq<byte>, t: seq<byte>) {
    exists k | 0 <= k < |s| && k < |t| :: s[..k] == t[..k] && s[k] < t[k]
  }

  lemma PrecedesAsymmetric(s: seq<byte>, t: seq<byte>)
    requires Precedes(s, t)
    ensures !Precedes(t, s)
  {
    var k :| 0 <= k < |s| && k < |t| && s[..k] == t[..k] && s[k] < t[k];
    forall j | 0 <= j < |s| && j < |t|
      ensures !(t[..j] == s[..j] && t[j] < s[j])
    {
      if j < k {
        assert s[..k][j] == t[..k][j];
      } else if k < j {
        assert s[..j][k] == s[k] && t[..j][k] == t[k];
      }
    }
  }

  lemma PrecedesExtends(s: seq<byte>, t: seq<byte>, b: byte, c: byte)
    requires Precedes(s, t)
    ensures Precedes(s + [b], t + [c])
  {
    var k :| 0 <= k < |s| && k < |t| && s[..k] == t[..k] && s[k] < t[k];
    assert (s + [b])[..k] == s[..k] && (t + [c])[..k] == t[..k];
    assert (s + [b])[k] < (t + [c])[k];
  }

  lemma PrecedesAtEnd(s: seq<byte>, b: byte, c: byte)
    requires b < c
    ensures Precedes(s + [b], s + [c])
  {
    assert (s + [b])[..|s|] == (s + [c])[..|s|];
    assert (s + [b])[|s|] < (s + [c])[|s|];
  }

  /** Smaller numbers have earlier digit strings. */
  lemma {:induction false} DigitsOrder(m: nat, n: nat, k: nat)
    requires m < n < Pow(36, k)
    ensures Precedes(Digits(m, k), Digits(n, k))
  {
    assert k > 0;
    if m / 36 < n / 36 {
      DigitsOrder(m / 36, n / 36, k - 1);
      PrecedesExtends(Digits(m / 36, k - 1), Digits(n / 36, k - 1), Digit(m % 36), Digit(n % 36));
    } else {
      assert m / 36 == n / 36 && m % 36 < n % 36;
      PrecedesAtEnd(Digits(m / 36, k - 1), Digit(m % 36), Digit(n % 36));
    }
  }

  /** Big-endian values compare as the byte strings do. */
  lemma {:induction false} Val256Order(x: seq<byte>, y: seq<byte>)
    requires |x| == |y| && Val256(x) < Val256(y)
    ensures Precedes(x, y)
  {
    assert x != [];
    var n := |x| - 1;
    assert x == x[..n] + [x[n]] && y == y[..n] + [y[n]];
    if Val256(x[..n]) < Val256(y[..n]) {
      Val256Order(x[..n], y[..n]);
      PrecedesExtends(x[..n], y[..n], x[n], y[n]);
    } else {
      assert Val256(x[..n]) == Val256(y[..n]) && x[n] < y[n];
      Val256Injective(x[..n], y[..n]);
      PrecedesAtEnd(x[..n], x[n], y[n]);
    }
  }

  /** The base-36 forms of digests are in the order of their values, and of the digests themselves. */
  lemma EncodeOrder(x: seq<byte>, y: seq<byte>)
    requires |x| == |y| == 32
    ensures Precedes(Encode(x), Encode(y)) <==> Val256(x) < Val256(y)
    ensures Precedes(Encode(x), Encode(y)) <==> Precedes(x, y)
  {
    if Val256(x) < Val256(y) {
      EncodeOrdered(x, y);
    } else if Val256(y) < Val256(x) {
      EncodeOrdered(y, x);
    } else {
      Val256Injective(x, y);
    }
  }

  lemma EncodeOrdered(x: seq<byte>, y: seq<byte>)
    requires |x| == |y| == 32 && Val256(x) < Val256(y)
    ensures Precedes(Encode(x), Encode(y)) && !Precedes(Encode(y), Encode(x))
    ensures Precedes(x, y) && !Precedes(y, x)
  {
    Val256Bound(y);
    DigestWidth();
    DigitsOrder(Val256(x), Val256(y), HASH_BODY_LENGTH);
    PrecedesAsymmetric(Encode(x), Encode(y));
    Val256Order(x, y);
    PrecedesAsymmetric(x, y);
  }

  // ----- 49 digits are too few -----

  function Bytes256(n: nat, k: nat): (s: seq<byte>)
    ensures |s| == k
  {
    if k == 0 then [] else Bytes256(n / 256, k - 1) + [n % 256]
  }

  lemma {:induction false} Val256Bytes(n: nat, k: nat)
    requires n < Pow(256, k)
    ensures Val256(Bytes256(n, k)) == n
  {
    if k > 0 {
      Val256Bytes(n / 256, k - 1);
      assert Bytes256(n, k)[..k - 1] == Bytes256(n / 256, k - 1);
    }
  }

  lemma {:induction false} DigitsOfPower(k: nat)
    ensures Digits(Pow(36, k), k) == Digits(0, k)
  {
    if k > 0 {
      DigitsOfPower(k - 1);
      assert Pow(36, k) / 36 == Pow(36, k - 1) && Pow(36, k) % 36 == 0;
    }
  }

  lemma FortyNineDigitsCollide()
    ensures exists x: seq<byte>, y: seq<byte> ::
      |x| == |y| == 32 && x != y && Digits(Val256(x), 49) == Digits(Val256(y), 49)
  {
    DigestWidth();
    var x, y := Bytes256(Pow(36, 49), 32), Bytes256(0, 32);
    Val256Bytes(Pow(36, 49), 32);
    Val256Bytes(0, 32);
    DigitsOfPower(49);
    assert Pow(36, 49) == 36 * Pow(36, 48);
    PowPositive(48);
    assert |x| == |y| == 32 && x != y && Digits(Val256(x), 49) == Digits(Val256(y), 49);
  }

  lemma {:induction false} PowPositive(k: nat)
    ensures Pow(36, k) > 0
  {
    if k > 0 {
      PowPositive(k - 1);
    }
  }

  // ----- quotients -----

  lemma {:induction false} QuotientStep(n: nat, k: nat)
    ensures Quotient(n, k + 1) == Quotient(n, k) / 36
  {
    if k > 0 {
      QuotientStep(n / 36, k - 1);
    }
  }

  /** The next digit to the left is the remainder of the next division. */
  lemma {:induction false} DigitsStep(n: nat, k: nat)
    ensures Digits(n, k + 1) == [Digit(Quotient(n, k) % 36)] + Digits(n, k)
  {
    if k == 0 {
      assert Digits(n, 1) == Digits(n / 36, 0) + [Digit(n % 36)];
    } else {
      DigitsStep(n / 36, k - 1);
      var d := Digit(Quotient(n, k) % 36);
      assert ([d] + Digits(n / 36, k - 1)) + [Digit(n % 36)] == [d] + (Digits(n / 36, k - 1) + [Digit(n % 36)]);
    }
  }

  lemma {:induction false} QuotientZero(n: nat, k: nat)
    requires n < Pow(36, k)
    ensures Quotient(n, k) == 0
  {
    if k > 0 {
      QuotientZero(n / 36, k - 1);
    }
  }

  // ----- the C division -----

  /** One step of long division: the quotient digit fits a byte. */
  lemma LongDivisionStep(v: nat, q: nat, rem: nat, b: byte)
    requires v == 36 * q + rem && rem < 36
    ensures var cur := rem * 256 + b;
            cur / 36 < 256 && v * 256 + b == 36 * (q * 256 + cur / 36) + cur % 36
  {
  }

  lemma QuotientRemainder(v: nat, q: nat, rem: nat)
    requires v == 36 * q + rem && rem < 36
    ensures q == v / 36 && rem == v % 36
  {
  }

  /** The loop invariant of the division: `after` holds the quotient of the first bytes. */
  predicate Divided(input: seq<byte>, view: seq<byte>, j: nat, rem: nat) {
    && j <= |input| == |view|
    && view[j..] == input[j..]
    && Val256(input[..j]) == 36 * Val256(view[..j]) + rem
    && rem < 36
  }

  lemma DividedStep(input: seq<byte>, view: seq<byte>, j: nat, rem: nat)
    requires Divided(input, view, j, rem) && j < |input|
    ensures var cur := rem * 256 + view[j];
            cur / 36 < 256 && Divided(input, view[j := cur / 36], j + 1, cur % 36)
  {
    assert view[j] == view[j..][0] == input[j..][0] == input[j];
    LongDivisionStep(Val256(input[..j]), Val256(view[..j]), rem, view[j]);
    var after := view[j := (rem * 256 + view[j]) / 36];
    Val256Snoc(input, j);
    Val256Snoc(after, j);
    assert after[..j] == view[..j];
    assert after[j + 1..] == view[j..][1..] == input[j..][1..] == input[j + 1..];
  }

  lemma DividedEnd(input: seq<byte>, view: seq<byte>, rem: nat)
    requires Divided(input, view, |input|, rem)
    ensures rem == Val256(input) % 36 && Val256(view) == Val256(input) / 36
  {
    assert view[..|view|] == view && input[..|input|] == input;
    QuotientRemainder(Val256(input), Val256(view), rem);
  }

  /** One pass of the inner loop: divide the buffer by 36 in place. */
  method DivideBy36(buf: array<byte>) returns (rem: nat)
    modifies buf
    ensures rem == old(Val256(buf[..])) % 36
    ensures Val256(buf[..]) == old(Val256(buf[..])) / 36
  {
    ghost var input := buf[..];
    rem := 0;
    var j := 0;
    while j < buf.Length
      invariant 0 <= j <= buf.Length
      invariant Divided(input, buf[..], j, rem)
    {
      DividedStep(input, buf[..], j, rem);
      ghost var next := buf[..][j := (rem * 256 + buf[j]) / 36];
      var cur := rem * 256 + buf[j];
      buf[j] := cur / 36;
      rem := cur % 36;
      assert buf[..] == next;
      j := j + 1;
    }
    DividedEnd(input, buf[..], rem);
  }

  /** Fifty rounds, filling the digits from the right; the buffer is used up. */
  method DivideFifty(buf: array<byte>, output: array<byte>, off: nat)
    requires buf != output && buf.Length == 32 && off + HASH_BODY_LENGTH <= output.Length
    modifies buf, output
    ensures forall j | 0 <= j < 32 :: buf[j] == 0
    ensures output[off..off + HASH_BODY_LENGTH] == Encode(old(buf[..]))
    ensures OnlyWithin(output, off, HASH_BODY_LENGTH)
  {
    ghost var n := Val256(buf[..]);
    ghost var digits: seq<byte> := [];
    var i := HASH_BODY_LENGTH;
    while i > 0
      invariant 0 <= i <= HASH_BODY_LENGTH
      invariant Val256(buf[..]) == Quotient(n, HASH_BODY_LENGTH - i)
      invariant digits == Digits(n, HASH_BODY_LENGTH - i)
      invariant output[off + i..off + HASH_BODY_LENGTH] == digits
      invariant OnlyWithin(output, off, HASH_BODY_LENGTH)
    {
      QuotientStep(n, HASH_BODY_LENGTH - i);
      DigitsStep(n, HASH_BODY_LENGTH - i);
      var rem := DivideBy36(buf);
      i := i - 1;
      DigitText(rem);
      output[off + i] := BASE36_ALPHABET[rem] as int;
      digits := [Digit(rem)] + digits;
    }
    WidthOfBuffer(old(buf[..]));
    Val256Zero(buf[..]);
    assert forall j | 0 <= j < 32 :: buf[j] == buf[..][j];
  }

  lemma WidthOfBuffer(s: seq<byte>)
    requires |s| == 32
    ensures Quotient(Val256(s), HASH_BODY_LENGTH) == 0
  {
    Val256Bound(s);
    DigestWidth();
    QuotientZero(Val256(s), HASH_BODY_LENGTH);
  }

  method Base36Encode(data: seq<byte>, output: array<byte>, off: nat, cap: nat, outputLength: SizeRef)
    returns (status: Status)
    requires off + cap <= output.Length
    modifies output, outputLength
    ensures status == if |data| == 32 && cap >= HASH_BODY_LENGTH + 1 then Ok else BufferTooSmall
    ensures OnlyWithin(output, off, cap)
    ensures status == Ok ==>
      && output[off..off + HASH_BODY_LENGTH] == Encode(data)
      && output[off + HASH_BODY_LENGTH] == 0
      && outputLength.value == HASH_BODY_LENGTH
    ensures status != Ok ==> output[..] == old(output[..]) && outputLength.value == old(outputLength.value)
  {
    if |data| != 32 {
      return BufferTooSmall;
    }
    if cap < HASH_BODY_LENGTH + 1 {
      return BufferTooSmall;
    }
    var buf := new byte[32];
    CopyInto(buf, 0, data);
    assert buf[..] == data;
    DivideFifty(buf, output, off);
    output[off + HASH_BODY_LENGTH] := 0;
    outputLength.value := HASH_BODY_LENGTH;
    return Ok;
  }

  // ----- the big-integer loops of the other ports -----

  function Reversed(s: seq<byte>): (r: seq<byte>)
    ensures |r| == |s|
  {
    if s == [] then [] else [s[|s| - 1]] + Reversed(s[..|s| - 1])
  }

  function RightJustify(s: seq<byte>, width: nat): seq<byte> {
    if |s| >= width then s else seq(width - |s|, _ => 0x30) + s
  }

  lemma {:induction false} DigitsPadded(n: nat, k: nat, width: nat)
    requires Quotient(n, k) == 0 && k <= width
    ensures Digits(n, width) == RightJustify(Digits(n, k), width)
    decreases width - k
  {
    if k < width {
      QuotientStep(n, k);
      DigitsStep(n, k);
      DigitsPadded(n, k + 1, width);
      var pad: seq<byte> := seq(width - k - 1, _ => 0x30);
      assert pad + ([0x30] + Digits(n, k)) == (pad + [0x30]) + Digits(n, k);
      var more: seq<byte> := seq(width - k, _ => 0x30);
      assert more == pad + [0x30];
    }
  }

  lemma {:induction false} QuotientPositive(n: nat, k: nat)
    requires Quotient(n, k) > 0
    ensures Pow(36, k) <= n
  {
    if k > 0 {
      QuotientPositive(n / 36, k - 1);
    }
  }

  lemma {:induction false} PowMonotone(j: nat, k: nat)
    requires j <= k
    ensures Pow(36, j) <= Pow(36, k)
    decreases k - j
  {
    if j < k {
      PowMonotone(j + 1, k);
      PowPositive(j);
    }
  }

  /** Divide until zero, reverse, pad: the Python loop, also the JavaScript one. */
  method DivideUntilZero(data: seq<byte>) returns (r: seq<byte>)
    ensures |data| == 32 ==> r == Encode(data)
  {
    ghost var total := Val256(data);
    var n := Val256(data);
    if n == 0 {
      DigitsPadded(0, 0, 50);
      r := RightJustify([0x30], HASH_BODY_LENGTH);
      DigitsStep(0, 0);
      DigitsPadded(0, 1, 50);
      return;
    }
    var digits: seq<byte> := [];
    while n > 0
      invariant n == Quotient(total, |digits|)
      invariant Reversed(digits) == Digits(total, |digits|)
      invariant total < Pow(36, 50) ==> |digits| <= 50
    {
      QuotientStep(total, |digits|);
      DigitsStep(total, |digits|);
      QuotientPositive(total, |digits|);
      if |digits| >= 50 {
        PowMonotone(50, |digits|);
      }
      var rem := n % 36;
      n := n / 36;
      assert (digits + [Digit(rem)])[..|digits|] == digits;
      DigitText(rem);
      digits := digits + [BASE36_ALPHABET[rem] as int];
    }
    r := RightJustify(Reversed(digits), HASH_BODY_LENGTH);
    if |data| == 32 {
      Val256Bound(data);
      DigestWidth();
      DigitsPadded(total, |digits|, 50);
    }
  }

  /** Fifty big-integer divisions: the Java and Go loop. */
  method DivideFiftyTimes(data: seq<byte>) returns (r: seq<byte>)
    ensures r == Encode(data)
  {
    var n := Val256(data);
    ghost var total := n;
    if n == 0 {
      DigitsPadded(0, 0, 50);
      return seq(HASH_BODY_LENGTH, _ => 0x30);
    }
    var digits := new byte[HASH_BODY_LENGTH];
    var i := HASH_BODY_LENGTH;
    while i > 0
      invariant 0 <= i <= HASH_BODY_LENGTH
      invariant n == Quotient(total, HASH_BODY_LENGTH - i)
      invariant digits[i..] == Digits(total, HASH_BODY_LENGTH - i)
    {
      QuotientStep(total, HASH_BODY_LENGTH - i);
      DigitsStep(total, HASH_BODY_LENGTH - i);
      i := i - 1;
      DigitText(n % 36);
      digits[i] := BASE36_ALPHABET[n % 36] as int;
      n := n / 36;
    }
    return digits[..];
  }
}
