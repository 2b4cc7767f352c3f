/** The streaming hash object of the C library, proved against the one-shot
    definition of FIPS 180-4 for every way of cutting the message into pieces. */
module Sha256 {
  import opened Bytes
  import opened Memory
  import opened Words
  import opened Sha256Spec

  /** One entry of the schedule, with the sum in the C code's order. */
  method Expand(w16: Word, w15: Word, w7: Word, w2: Word) returns (r: Word)
    ensures r == AddFour(SmallSigma1(w2), w7, SmallSigma0(w15), w16)
  {
    var s0 := XorThree(Rotr(w15, 7), Rotr(w15, 18), Shr(w15, 3));
    var s1 := XorThree(Rotr(w2, 17), Rotr(w2, 19), Shr(w2, 10));
    AddFourReversed(w16, s0, w7, s1);
    r := AddFour(w16, s0, w7, s1);
  }

  /** The first schedule loop: big-endian words of the block. */
  method LoadBlock(data: seq<byte>, w: array<Word>)
    requires |data| == 64 && w.Length == 64
    modifies w
    ensures w[..16] == Parse(data)
  {
    var i := 0;
    while i < 16
      invariant 0 <= i <= 16
      invariant w[..i] == Parse(data)[..i]
    {
      w[i] := BigEndianWord(data[i * 4], data[i * 4 + 1], data[i * 4 + 2], data[i * 4 + 3]);
      assert w[i] == Parse(data)[i];
      i := i + 1;
    }
  }

  /** The second schedule loop, in place on the 64-entry array. */
  method ExpandBlock(ghost m: seq<Word>, w: array<Word>)
    requires |m| == 16 && w.Length == 64 && w[..16] == m
    modifies w
    ensures forall t :: 0 <= t < 64 ==> w[t] == W(m, t)
  {
    var i := 16;
    while i < 64
      invariant 16 <= i <= 64
      invariant forall t :: 0 <= t < i ==> w[t] == W(m, t)
    {
      w[i] := Expand(w[i - 16], w[i - 15], w[i - 7], w[i - 2]);
      i := i + 1;
    }
  }

  /** The round loop: eight working variables, reassigned in the order of the C code. */
  method RunRounds(v: Vars, ghost m: seq<Word>, w: array<Word>)
    returns (a: Word, b: Word, c: Word, d: Word, e: Word, f: Word, g: Word, h: Word)
    requires |m| == 16 && w.Length == 64
    requires forall t :: 0 <= t < 64 ==> w[t] == W(m, t)
    ensures Vars(a, b, c, d, e, f, g, h) == Rounds(v, m, |SHA256_K|)
  {
    a, b, c, d := v.a, v.b, v.c, v.d;
    e, f, g, h := v.e, v.f, v.g, v.h;
    var i := 0;
    while i < 64
      invariant 0 <= i <= 64
      invariant Vars(a, b, c, d, e, f, g, h) == Rounds(v, m, i)
    {
      var s1 := XorThree(Rotr(e, 6), Rotr(e, 11), Rotr(e, 25));
      var ch := Xor(And(e, f), And(Not(e), g));
      var temp1 := Add(Add(Add(Add(h, s1), ch), SHA256_K[i]), w[i]);
      var s0 := XorThree(Rotr(a, 2), Rotr(a, 13), Rotr(a, 22));
      var maj := XorThree(And(a, b), And(a, c), And(b, c));
      var temp2 := Add(s0, maj);
      h := g;
      g := f;
      f := e;
      e := Add(d, temp1);
      d := c;
      c := b;
      b := a;
      a := Add(temp1, temp2);
      i := i + 1;
    }
  }

  /** `step` is the compression. The streaming proof needs no more of it than its name. */
  ghost predicate IsCompression(step: Step) {
    forall v: Vars, b: seq<byte> {:trigger Compress(v, b)} :: |b| == 64 ==> step(v, b) == Compress(v, b)
  }

  class Context {
    const state: array<Word>
    const buffer: array<byte>
    var count: nat
    ghost const step: Step
    ghost var message: seq<byte>

    function Hash(): Vars
      reads this, state
      requires state.Length == 8
    {
      Vars(state[0], state[1], state[2], state[3], state[4], state[5], state[6], state[7])
    }

    /** The bytes hashed so far are the folded whole blocks and the buffered tail. */
    ghost predicate Valid()
      reads this, state, buffer
    {
      && IsCompression(step)
      && state.Length == 8
      && buffer.Length == 64
      && count == 8 * |message| % TWO_64
      && Hash() == Fold(step, Whole(message))
      && buffer[..|message| % 64] == Tail(message)
    }

    constructor (ghost step: Step)
      requires IsCompression(step)
      ensures Valid() && message == [] && this.step == step
      ensures fresh(state) && fresh(buffer)
    {
      state := new Word[8] [
        0x6a09e667, 0xbb67ae85, 0x3c6ef372, 0xa54ff53a, 0x510e527f, 0x9b05688c, 0x1f83d9ab, 0x5be0cd19];
      buffer := new byte[64](_ => 0);
      count := 0;
      this.step := step;
      message := [];
      new;
      assert Whole([]) == [];
    }

    method Transform(data: seq<byte>)
      requires state.Length == 8 && |data| == 64
      modifies state
      ensures Hash() == Compress(old(Hash()), data)
    {
      var w := new Word[64];
      LoadBlock(data, w);
      ExpandBlock(Parse(data), w);
      var a, b, c, d, e, f, g, h := RunRounds(Hash(), Parse(data), w);
      assert Compress(Hash(), data) == Sum(Hash(), Vars(a, b, c, d, e, f, g, h));
      AddState(a, b, c, d, e, f, g, h);
    }

    method AddState(a: Word, b: Word, c: Word, d: Word, e: Word, f: Word, g: Word, h: Word)
      requires state.Length == 8
      modifies state
      ensures Hash() == Sum(old(Hash()), Vars(a, b, c, d, e, f, g, h))
    {
      state[0] := Add(state[0], a);
      state[1] := Add(state[1], b);
      state[2] := Add(state[2], c);
      state[3] := Add(state[3], d);
      state[4] := Add(state[4], e);
      state[5] := Add(state[5], f);
      state[6] := Add(state[6], g);
      state[7] := Add(state[7], h);
    }

    /** Compresses one more block of the message. */
    method Absorb(ghost prefix: seq<byte>, data: seq<byte>)
      requires IsCompression(step) && state.Length == 8 && |data| == 64
      requires |prefix| % 64 == 0 && Hash() == Fold(step, prefix)
      modifies state
      ensures (|prefix| + 64) % 64 == 0 && Hash() == Fold(step, prefix + data)
    {
      FoldBlock(step, prefix, data);
      Transform(data);
    }

    /** Completes a partly filled buffer from `data` and compresses it. */
    method FillBuffer(ghost m: seq<byte>, data: seq<byte>, idx: nat)
      requires IsCompression(step) && state.Length == 8 && buffer.Length == 64
      requires idx == |m| % 64 && 64 - idx <= |data|
      requires Hash() == Fold(step, Whole(m)) && buffer[..idx] == Tail(m)
      modifies state, buffer
      ensures |m + data[..64 - idx]| % 64 == 0
      ensures Hash() == Fold(step, m + data[..64 - idx])
    {
      var fill := 64 - idx;
      ghost var before := buffer[..];
      CopyInto(buffer, idx, data[..fill]);
      FilledBlock(m, data[..fill], before, buffer[..]);
      Absorb(Whole(m), buffer[..]);
    }

    /** Compresses the whole blocks of `data` from `start` on. */
    method AbsorbBlocks(ghost m: seq<byte>, data: seq<byte>, start: nat) returns (i: nat)
      requires IsCompression(step) && state.Length == 8
      requires start <= |data| && |m + data[..start]| % 64 == 0
      requires Hash() == Fold(step, m + data[..start])
      modifies state
      ensures start <= i <= |data| < i + 64
      ensures |m + data[..i]| % 64 == 0 && Hash() == Fold(step, m + data[..i])
    {
      i := start;
      ghost var done := m + data[..i];
      while i + 64 <= |data|
        invariant start <= i <= |data|
        invariant done == m + data[..i]
        invariant |done| % 64 == 0 && Hash() == Fold(step, done)
      {
        NextBlock(m, data, i);
        Absorb(done, data[i..i + 64]);
        done := done + data[i..i + 64];
        i := i + 64;
      }
    }

    /** Compresses all blocks that `data` completes. */
    method Drain(ghost m: seq<byte>, data: seq<byte>, idx: nat) returns (i: nat)
      requires IsCompression(step) && state.Length == 8 && buffer.Length == 64
      requires idx == |m| % 64 && 64 - idx <= |data|
      requires Hash() == Fold(step, Whole(m)) && buffer[..idx] == Tail(m)
      modifies state, buffer
      ensures i <= |data| && Hash() == Fold(step, Whole(m + data)) && data[i..] == Tail(m + data)
    {
      if idx > 0 {
        FillBuffer(m, data, idx);
        i := 64 - idx;
      } else {
        assert m + data[..0] == Whole(m);
        i := 0;
      }
      i := AbsorbBlocks(m, data, i);
      BlocksThenTail(m, data, i);
    }

    /** Compresses what is complete and keeps the rest in the buffer. */
    method Feed(ghost m: seq<byte>, data: seq<byte>, idx: nat)
      requires IsCompression(step) && state.Length == 8 && buffer.Length == 64
      requires idx == |m| % 64
      requires Hash() == Fold(step, Whole(m)) && buffer[..idx] == Tail(m)
      modifies state, buffer
      ensures Hash() == Fold(step, Whole(m + data))
      ensures buffer[..|m + data| % 64] == Tail(m + data)
    {
      if idx + |data| >= 64 {
        var i := Drain(m, data, idx);
        if i < |data| {
          CopyInto(buffer, 0, data[i..]);
        }
        assert buffer[..|data| - i] == data[i..];
      } else {
        ShortAppend(m, data);
        if 0 < |data| {
          CopyInto(buffer, idx, data);
        }
        assert buffer[..idx + |data|] == Tail(m) + data;
      }
    }

    /** Appends `data` to the hashed message, for any fill of the buffer. */
    method Update(data: seq<byte>)
      requires Valid()
      modifies this, state, buffer
      ensures Valid() && message == old(message) + data
    {
      ghost var longer := message + data;
      CounterStep(message, data);
      var idx := count / 8 % 64;
      count := (count + |data| * 8) % TWO_64;
      Feed(message, data, idx);
      message := longer;
    }

    /** Feeds the padding and the 64-bit length through the same buffer. */
    method PadMessage()
      requires Valid()
      modifies this, state, buffer
      ensures Valid() && message == Pad(old(message))
    {
      ghost var m := message;
      var pad := new byte[64](_ => 0);
      var idx := count / 8 % 64;
      BufferIndex(|m|);
      var padLen := if idx < 56 then 56 - idx else 120 - idx;
      var bitCount := count;
      pad[0] := 0x80;
      PadStart(|m|, pad[..], padLen);
      Update(pad[..padLen]);
      WriteLength(pad, bitCount);
      LengthFieldWraps(8 * |m|);
      Update(pad[..8]);
      WholePad(m);
    }

    /** Pads, then writes the digest of everything hashed. */
    method Final(out: array<byte>)
      requires Valid() && out.Length == 32 && out != buffer
      modifies this, state, buffer, out
      ensures out[..] == DigestBytes(Fold(step, Pad(old(message))).Words())
    {
      PadMessage();
      WholePad(old(message));
      WriteDigest(Hash().Words(), out);
    }
  }

  /** Serialises the eight state words, most significant byte first. */
  method WriteDigest(ws: seq<Word>, out: array<byte>)
    requires |ws| == 8 && out.Length == 32
    modifies out
    ensures out[..] == DigestBytes(ws)
  {
    var i := 0;
    while i < 8
      invariant 0 <= i <= 8
      invariant out[..4 * i] == DigestBytes(ws[..i])
    {
      assert ws[..i + 1][..i] == ws[..i];
      CopyInto(out, i * 4, WordBytes(ws[i]));
      i := i + 1;
    }
    assert ws[..8] == ws;
  }

  /** The eight assignments of the length field. */
  method WriteLength(pad: array<byte>, bitCount: nat)
    requires pad.Length == 64
    modifies pad
    ensures pad[..8] == Bytes8(bitCount)
  {
    pad[0] := bitCount / 0x100_0000_0000_0000 % 256;
    pad[1] := bitCount / 0x1_0000_0000_0000 % 256;
    pad[2] := bitCount / 0x100_0000_0000 % 256;
    pad[3] := bitCount / 0x1_0000_0000 % 256;
    pad[4] := bitCount / 0x100_0000 % 256;
    pad[5] := bitCount / 0x1_0000 % 256;
    pad[6] := bitCount / 0x100 % 256;
    pad[7] := bitCount % 256;
  }

  /** The one-shot digest of the C library. */
  method Digest(data: seq<byte>, out: array<byte>)
    requires out.Length == 32
    modifies out
    ensures out[..] == Sha256(data)
  {
    var ctx := new Context(Compression);
    ctx.Update(data);
    assert ctx.message == data;
    ctx.Final(out);
  }

  function Concat(pieces: seq<seq<byte>>): seq<byte> {
    if pieces == [] then [] else Concat(pieces[..|pieces| - 1]) + pieces[|pieces| - 1]
  }

  /** Any run of updates: however the message is cut, the digest is that of the whole. */
  method DigestPieces(pieces: seq<seq<byte>>, out: array<byte>)
    requires out.Length == 32
    modifies out
    ensures out[..] == Sha256(Concat(pieces))
  {
    var ctx := new Context(Compression);
    var i := 0;
    while i < |pieces|
      invariant 0 <= i <= |pieces|
      invariant ctx.Valid() && ctx.message == Concat(pieces[..i]) && ctx.step == Compression
      invariant fresh(ctx) && fresh(ctx.state) && fresh(ctx.buffer)
      invariant out[..] == old(out[..])
    {
      ctx.Update(pieces[i]);
      assert pieces[..i + 1][..i] == pieces[..i];
      i := i + 1;
    }
    assert pieces[..i] == pieces;
    ctx.Final(out);
  }

  // ----- whole blocks, tails and counters -----

  function Whole(m: seq<byte>): (s: seq<byte>)
    ensures |s| % 64 == 0
  {
    m[..|m| / 64 * 64]
  }

  function Tail(m: seq<byte>): (s: seq<byte>)
    ensures |s| == |m| % 64
  {
    m[|m| / 64 * 64..]
  }

  lemma BlocksThenTail(m: seq<byte>, data: seq<byte>, i: nat)
    requires i <= |data| < i + 64 && |m + data[..i]| % 64 == 0
    ensures Whole(m + data) == m + data[..i] && Tail(m + data) == data[i..]
  {
    assert |m + data| / 64 * 64 == |m| + i;
  }

  lemma NextBlock(m: seq<byte>, data: seq<byte>, i: nat)
    requires i + 64 <= |data|
    ensures m + data[..i] + data[i..i + 64] == m + data[..i + 64]
  {
  }

  lemma ShortAppend(m: seq<byte>, data: seq<byte>)
    requires |m| % 64 + |data| < 64
    ensures Whole(m + data) == Whole(m) && Tail(m + data) == Tail(m) + data
  {
    assert |m + data| / 64 == |m| / 64;
  }

  /** Copying `data` behind the tail of `m` completes a block. */
  lemma FilledBlock(m: seq<byte>, data: seq<byte>, before: seq<byte>, after: seq<byte>)
    requires |before| == 64 && |m| % 64 + |data| == 64 && before[..|m| % 64] == Tail(m)
    requires after == before[..|m| % 64] + data + before[64..]
    ensures |after| == 64 && |m + data| % 64 == 0 && Whole(m) + after == m + data
  {
    assert |m + data| == 64 * (|m| / 64 + 1);
  }

  /** The cut of the pad buffer: one set bit, then the zeros up to the length field. */
  lemma PadStart(n: nat, pad: seq<byte>, padLen: nat)
    requires |pad| == 64 && pad[0] == 0x80 && pad[1..] == Zeros(63)
    requires padLen == if n % 64 < 56 then 56 - n % 64 else 120 - n % 64
    ensures pad[..padLen] == [0x80] + Zeros(ZeroCount(n))
  {
    assert pad == [pad[0]] + pad[1..];
  }

  lemma WholePad(m: seq<byte>)
    ensures m + ([0x80] + Zeros(ZeroCount(|m|))) + Bytes8(8 * |m|) == Pad(m)
    ensures Whole(Pad(m)) == Pad(m)
  {
  }

  /** The 64-bit bit counter locates the end of the buffer, wrapped or not. */
  lemma BufferIndex(n: nat)
    ensures 8 * n % TWO_64 / 8 % 64 == n % 64
  {
    var q, r := 8 * n / TWO_64, 8 * n % TWO_64;
    assert r == 8 * (n - q * (TWO_64 / 8));
    assert r / 8 == n - q * 0x2000_0000_0000_0000;
    assert n == r / 8 + 64 * (q * 0x80_0000_0000_0000);
  }

  lemma BitCountAdds(n: nat, k: nat)
    ensures (8 * n % TWO_64 + k * 8) % TWO_64 == 8 * (n + k) % TWO_64
  {
    var q := 8 * n / TWO_64;
    assert 8 * (n + k) == 8 * n % TWO_64 + k * 8 + q * TWO_64;
  }

  lemma CounterStep(m: seq<byte>, data: seq<byte>)
    ensures var count := 8 * |m| % TWO_64;
            count / 8 % 64 == |m| % 64 && (count + |data| * 8) % TWO_64 == 8 * |m + data| % TWO_64
  {
    BufferIndex(|m|);
    BitCountAdds(|m|, |data|);
  }

  lemma LowByte(x: nat, d: nat)
    ensures (256 * x + d) % 256 == d % 256
  {
  }

  /** Only the low 64 bits of the bit count reach the length field. */
  lemma LengthFieldWraps(n: nat)
    ensures Bytes8(n % TWO_64) == Bytes8(n)
  {
    var q, r := n / TWO_64, n % TWO_64;
    assert n == q * TWO_64 + r;
    LowByte(0x100_0000_0000_0000 * q, r);
    assert n / 0x100 == 256 * (0x1_0000_0000_0000 * q) + r / 0x100;
    LowByte(0x1_0000_0000_0000 * q, r / 0x100);
    assert n / 0x1_0000 == 256 * (0x100_0000_0000 * q) + r / 0x1_0000;
    LowByte(0x100_0000_0000 * q, r / 0x1_0000);
    assert n / 0x100_0000 == 256 * (0x1_0000_0000 * q) + r / 0x100_0000;
    LowByte(0x1_0000_0000 * q, r / 0x100_0000);
    assert n / 0x1_0000_0000 == 256 * (0x100_0000 * q) + r / 0x1_0000_0000;
    LowByte(0x100_0000 * q, r / 0x1_0000_0000);
    assert n / 0x100_0000_0000 == 256 * (0x1_0000 * q) + r / 0x100_0000_0000;
    LowByte(0x1_0000 * q, r / 0x100_0000_0000);
    assert n / 0x1_0000_0000_0000 == 256 * (0x100 * q) + r / 0x1_0000_0000_0000;
    LowByte(0x100 * q, r / 0x1_0000_0000_0000);
    assert n / 0x100_0000_0000_0000 == 256 * (0x1 * q) + r / 0x100_0000_0000_0000;
    LowByte(0x1 * q, r / 0x100_0000_0000_0000);
  }
}
