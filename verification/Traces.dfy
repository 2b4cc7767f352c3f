/** The compression of a known block, eight rounds at a time. */
module Traces {
  import opened Bytes
  import opened Words
  import opened Sha256Spec

  // ----- runs of rounds; the round is known by name only, so that its value is computed once -----

  type Turn = (Vars, Word, Word) -> Vars

  ghost predicate IsRound(round: Turn) {
    forall v: Vars, k: Word, w: Word {:trigger Round(v, k, w)} :: round(v, k, w) == Round(v, k, w)
  }

  /** The state that the rounds with constants `ks` and words `ws` lead to. */
  function After(round: Turn, s: Vars, ks: seq<Word>, ws: seq<Word>): Vars
    requires |ks| == |ws|
  {
    if ws == [] then s
    else round(After(round, s, ks[..|ks| - 1], ws[..|ws| - 1]), ks[|ks| - 1], ws[|ws| - 1])
  }

  lemma {:induction false} AfterConcat(round: Turn, s: Vars, k: seq<Word>, w: seq<Word>, l: seq<Word>, x: seq<Word>)
    requires |k| == |w| && |l| == |x|
    ensures After(round, s, k + l, w + x) == After(round, After(round, s, k, w), l, x)
  {
    if x == [] {
      assert k + l == k && w + x == w;
    } else {
      var n := |x| - 1;
      AfterConcat(round, s, k, w, l[..n], x[..n]);
      assert (k + l)[..|k + l| - 1] == k + l[..n] && (w + x)[..|w + x| - 1] == w + x[..n];
    }
  }

  /** Words of the schedule from place `i` on. */
  ghost predicate Scheduled(m: seq<Word>, i: nat, ws: seq<Word>)
    requires |m| == 16 && i + |ws| <= 64
  {
    forall l | 0 <= l < |ws| :: W(m, i + l) == ws[l]
  }

  lemma ScheduledConcat(m: seq<Word>, i: nat, a: seq<Word>, b: seq<Word>)
    requires |m| == 16 && i + |a| + |b| <= 64 && Scheduled(m, i, a) && Scheduled(m, i + |a|, b)
    ensures Scheduled(m, i, a + b)
  {
    forall l | 0 <= l < |a + b|
      ensures W(m, i + l) == (a + b)[l]
    {
      if l >= |a| {
        assert W(m, i + |a| + (l - |a|)) == b[l - |a|];
      }
    }
  }

  /** The rounds from `i` on have constants `k` and words `w`, and lead from `s` to `t`. */
  ghost predicate Run(round: Turn, m: seq<Word>, i: nat, k: seq<Word>, w: seq<Word>, s: Vars, t: Vars)
    requires |m| == 16
  {
    |k| == |w| <= 64 - i && Scheduled(m, i, w) && After(round, s, k, w) == t
  }

  lemma Joined(round: Turn, m: seq<Word>, i: nat, k: seq<Word>, w: seq<Word>, s: Vars, t: Vars,
               l: seq<Word>, x: seq<Word>, u: Vars)
    requires |m| == 16 && Run(round, m, i, k, w, s, t) && Run(round, m, i + |w|, l, x, t, u)
    ensures Run(round, m, i, k + l, w + x, s, u)
  {
    ScheduledConcat(m, i, w, x);
    AfterConcat(round, s, k, w, l, x);
  }

  lemma {:induction false} RoundsAfter(round: Turn, v: Vars, m: seq<Word>, ws: seq<Word>, t: nat)
    requires |m| == 16 && t <= |ws| == |SHA256_K| == 64 && IsRound(round) && Scheduled(m, 0, ws)
    ensures Rounds(v, m, t) == After(round, v, SHA256_K[..t], ws[..t])
  {
    if t > 0 {
      RoundsAfter(round, v, m, ws, t - 1);
      assert W(m, 0 + (t - 1)) == ws[t - 1];
      OneTurn(round, v, SHA256_K, ws, t - 1, Rounds(v, m, t - 1), Rounds(v, m, t));
    }
  }

  lemma RoundsOfRun(round: Turn, v: Vars, m: seq<Word>, ws: seq<Word>, t: Vars)
    requires |m| == 16 && |ws| == |SHA256_K| && IsRound(round) && Run(round, m, 0, SHA256_K, ws, v, t)
    ensures Rounds(v, m, |SHA256_K|) == t
  {
    RoundsAfter(round, v, m, ws, |SHA256_K|);
    assert ws[..|ws|] == ws && SHA256_K[..|SHA256_K|] == SHA256_K;
  }

  lemma FourRows(round: Turn, m: seq<Word>, i0: nat, k0: seq<Word>, w0: seq<Word>, s0: Vars,
                 i1: nat, k1: seq<Word>, w1: seq<Word>, s1: Vars, i2: nat, k2: seq<Word>, w2: seq<Word>, s2: Vars,
                 i3: nat, k3: seq<Word>, w3: seq<Word>, s3: Vars, s4: Vars)
    requires |m| == 16 && |w0| == |w1| == |w2| == |w3| == 8 && i1 == i0 + 8 && i2 == i1 + 8 && i3 == i2 + 8
    requires Run(round, m, i0, k0, w0, s0, s1) && Run(round, m, i1, k1, w1, s1, s2)
    requires Run(round, m, i2, k2, w2, s2, s3) && Run(round, m, i3, k3, w3, s3, s4)
    ensures Run(round, m, i0, (k0 + k1) + (k2 + k3), (w0 + w1) + (w2 + w3), s0, s4)
  {
    Joined(round, m, i0, k0, w0, s0, s1, k1, w1, s2);
    Joined(round, m, i2, k2, w2, s2, s3, k3, w3, s4);
    Joined(round, m, i0, k0 + k1, w0 + w1, s0, s2, k2 + k3, w2 + w3, s4);
  }

  lemma TwoHalves(round: Turn, m: seq<Word>, w: seq<Word>, s: Vars, t: Vars, x: seq<Word>, u: Vars)
    requires |m| == 16 && |w| == |x| == 32 && IsRound(round)
    requires Run(round, m, 0, (K0 + K1) + (K2 + K3), w, s, t)
    requires Run(round, m, 32, (K4 + K5) + (K6 + K7), x, t, u)
    ensures Rounds(s, m, |SHA256_K|) == u
  {
    Joined(round, m, 0, (K0 + K1) + (K2 + K3), w, s, t, (K4 + K5) + (K6 + K7), x, u);
    RoundsOfRun(round, s, m, w + x, u);
  }

  // ----- four rounds at a time -----

  /** Four rounds lead from `s` to `t`. Each state keeps three of the four `a` and `e` before it. */
  predicate FourRounds(round: Turn, s: Vars, t: Vars, k: seq<Word>, w: seq<Word>, j: nat)
    requires j + 4 <= |k| && j + 4 <= |w|
  {
    && round(s, k[j], w[j]) == Vars(t.d, s.a, s.b, s.c, t.h, s.e, s.f, s.g)
    && round(Vars(t.d, s.a, s.b, s.c, t.h, s.e, s.f, s.g), k[j + 1], w[j + 1]) ==
         Vars(t.c, t.d, s.a, s.b, t.g, t.h, s.e, s.f)
    && round(Vars(t.c, t.d, s.a, s.b, t.g, t.h, s.e, s.f), k[j + 2], w[j + 2]) ==
         Vars(t.b, t.c, t.d, s.a, t.f, t.g, t.h, s.e)
    && round(Vars(t.b, t.c, t.d, s.a, t.f, t.g, t.h, s.e), k[j + 3], w[j + 3]) == t
  }

  predicate Computed(s: Vars, t: Vars, k: seq<Word>, w: seq<Word>, j: nat)
    requires j + 4 <= |k| && j + 4 <= |w|
  {
    && Round(s, k[j], w[j]) == Vars(t.d, s.a, s.b, s.c, t.h, s.e, s.f, s.g)
    && Round(Vars(t.d, s.a, s.b, s.c, t.h, s.e, s.f, s.g), k[j + 1], w[j + 1]) ==
         Vars(t.c, t.d, s.a, s.b, t.g, t.h, s.e, s.f)
    && Round(Vars(t.c, t.d, s.a, s.b, t.g, t.h, s.e, s.f), k[j + 2], w[j + 2]) ==
         Vars(t.b, t.c, t.d, s.a, t.f, t.g, t.h, s.e)
    && Round(Vars(t.b, t.c, t.d, s.a, t.f, t.g, t.h, s.e), k[j + 3], w[j + 3]) == t
  }

  lemma Evaluate(round: Turn, s: Vars, t: Vars, k: seq<Word>, w: seq<Word>, j: nat)
    requires j + 4 <= |k| && j + 4 <= |w| && IsRound(round) && Computed(s, t, k, w, j)
    ensures FourRounds(round, s, t, k, w, j)
  {
  }

  lemma OneTurn(round: Turn, v: Vars, k: seq<Word>, w: seq<Word>, n: nat, s: Vars, t: Vars)
    requires n < |k| == |w| && After(round, v, k[..n], w[..n]) == s && round(s, k[n], w[n]) == t
    ensures After(round, v, k[..n + 1], w[..n + 1]) == t
  {
    assert k[..n + 1][..n] == k[..n] && w[..n + 1][..n] == w[..n];
  }

  lemma FourTurns(round: Turn, v: Vars, k: seq<Word>, w: seq<Word>, j: nat, s: Vars, t: Vars)
    requires j + 4 <= |k| == |w| && After(round, v, k[..j], w[..j]) == s && FourRounds(round, s, t, k, w, j)
    ensures After(round, v, k[..j + 4], w[..j + 4]) == t
  {
    OneTurn(round, v, k, w, j, s, Vars(t.d, s.a, s.b, s.c, t.h, s.e, s.f, s.g));
    OneTurn(round, v, k, w, j + 1, Vars(t.d, s.a, s.b, s.c, t.h, s.e, s.f, s.g),
            Vars(t.c, t.d, s.a, s.b, t.g, t.h, s.e, s.f));
    OneTurn(round, v, k, w, j + 2, Vars(t.c, t.d, s.a, s.b, t.g, t.h, s.e, s.f),
            Vars(t.b, t.c, t.d, s.a, t.f, t.g, t.h, s.e));
    OneTurn(round, v, k, w, j + 3, Vars(t.b, t.c, t.d, s.a, t.f, t.g, t.h, s.e), t);
  }

  lemma EightTurns(round: Turn, s: Vars, t: Vars, u: Vars, k: seq<Word>, w: seq<Word>)
    requires |k| == |w| == 8 && FourRounds(round, s, t, k, w, 0) && FourRounds(round, t, u, k, w, 4)
    ensures After(round, s, k, w) == u
  {
    var n := 0;
    FourTurns(round, s, k, w, n, s, t);
    FourTurns(round, s, k, w, n + 4, t, u);
    assert k[..n + 8] == k && w[..n + 8] == w;
  }

  lemma EightRounds(round: Turn, s: Vars, t: Vars, u: Vars, k: seq<Word>, w: seq<Word>)
    requires |k| == |w| == 8 && IsRound(round) && Computed(s, t, k, w, 0) && Computed(t, u, k, w, 4)
    ensures After(round, s, k, w) == u
  {
    Evaluate(round, s, t, k, w, 0);
    Evaluate(round, t, u, k, w, 4);
    EightTurns(round, s, t, u, k, w);
  }

  // ----- the schedule, eight words at a time -----

  predicate FirstFour(p: seq<Word>, q: seq<Word>, r: seq<Word>)
    requires |p| == |q| == |r| == 8
  {
    && r[0] == AddFour(SmallSigma1(q[6]), q[1], SmallSigma0(p[1]), p[0])
    && r[1] == AddFour(SmallSigma1(q[7]), q[2], SmallSigma0(p[2]), p[1])
    && r[2] == AddFour(SmallSigma1(r[0]), q[3], SmallSigma0(p[3]), p[2])
    && r[3] == AddFour(SmallSigma1(r[1]), q[4], SmallSigma0(p[4]), p[3])
  }

  predicate LastFour(p: seq<Word>, q: seq<Word>, r: seq<Word>)
    requires |p| == |q| == |r| == 8
  {
    && r[4] == AddFour(SmallSigma1(r[2]), q[5], SmallSigma0(p[5]), p[4])
    && r[5] == AddFour(SmallSigma1(r[3]), q[6], SmallSigma0(p[6]), p[5])
    && r[6] == AddFour(SmallSigma1(r[4]), q[7], SmallSigma0(p[7]), p[6])
    && r[7] == AddFour(SmallSigma1(r[5]), r[0], SmallSigma0(q[0]), p[7])
  }

  lemma NextWord(m: seq<Word>, t: nat, w16: Word, w15: Word, w7: Word, w2: Word)
    requires |m| == 16 && 16 <= t < 64
    requires W(m, t - 16) == w16 && W(m, t - 15) == w15 && W(m, t - 7) == w7 && W(m, t - 2) == w2
    ensures W(m, t) == AddFour(SmallSigma1(w2), w7, SmallSigma0(w15), w16)
  {
  }

  lemma FirstFourFollow(m: seq<Word>, i: nat, p: seq<Word>, q: seq<Word>, r: seq<Word>)
    requires |m| == 16 && 16 <= i && i + 8 <= 64 && |p| == |q| == |r| == 8
    requires Scheduled(m, i - 16, p) && Scheduled(m, i - 8, q) && FirstFour(p, q, r)
    ensures W(m, i) == r[0] && W(m, i + 1) == r[1] && W(m, i + 2) == r[2] && W(m, i + 3) == r[3]
  {
    NextWord(m, i, p[0], p[1], q[1], q[6]);
    NextWord(m, i + 1, p[1], p[2], q[2], q[7]);
    NextWord(m, i + 2, p[2], p[3], q[3], r[0]);
    NextWord(m, i + 3, p[3], p[4], q[4], r[1]);
  }

  lemma LastFourFollow(m: seq<Word>, i: nat, p: seq<Word>, q: seq<Word>, r: seq<Word>)
    requires |m| == 16 && 16 <= i && i + 8 <= 64 && |p| == |q| == |r| == 8
    requires Scheduled(m, i - 16, p) && Scheduled(m, i - 8, q) && LastFour(p, q, r)
    requires W(m, i) == r[0] && W(m, i + 1) == r[1] && W(m, i + 2) == r[2] && W(m, i + 3) == r[3]
    ensures W(m, i + 4) == r[4] && W(m, i + 5) == r[5] && W(m, i + 6) == r[6] && W(m, i + 7) == r[7]
  {
    NextWord(m, i + 4, p[4], p[5], q[5], r[2]);
    NextWord(m, i + 5, p[5], p[6], q[6], r[3]);
    NextWord(m, i + 6, p[6], p[7], q[7], r[4]);
    NextWord(m, i + 7, p[7], q[0], r[0], r[5]);
  }

  /** The eight words that follow sixteen. */
  lemma RowFollows(m: seq<Word>, h: nat, p: seq<Word>, j: nat, q: seq<Word>, i: nat, r: seq<Word>)
    requires |m| == 16 && j == h + 8 && i == j + 8 && i + 8 <= 64 && |p| == |q| == |r| == 8
    requires Scheduled(m, h, p) && Scheduled(m, j, q) && FirstFour(p, q, r) && LastFour(p, q, r)
    ensures Scheduled(m, i, r)
  {
    FirstFourFollow(m, i, p, q, r);
    LastFourFollow(m, i, p, q, r);
    Row(m, i, r);
  }

  /** The block itself is the first sixteen words. */
  lemma BlockWords(m: seq<Word>, p: seq<Word>, q: seq<Word>)
    requires |p| == |q| == 8 && m == p + q
    ensures Scheduled(m, 0, p) && Scheduled(m, 8, q)
  {
  }

  lemma Row(m: seq<Word>, i: nat, r: seq<Word>)
    requires |m| == 16 && i + 8 <= 64 && |r| == 8
    requires W(m, i) == r[0] && W(m, i + 1) == r[1] && W(m, i + 2) == r[2] && W(m, i + 3) == r[3]
    requires W(m, i + 4) == r[4] && W(m, i + 5) == r[5] && W(m, i + 6) == r[6] && W(m, i + 7) == r[7]
    ensures Scheduled(m, i, r)
  {
  }

  // ----- blocks and digests as bytes -----

  /** The words written one after the other, by a serialiser known by name only. */
  function Written(write: Word -> seq<byte>, ws: seq<Word>): seq<byte> {
    if ws == [] then [] else Written(write, ws[..|ws| - 1]) + write(ws[|ws| - 1])
  }

  lemma {:induction false} BytesWritten(ws: seq<Word>)
    ensures DigestBytes(ws) == Written(WordBytes, ws)
  {
    if ws != [] {
      BytesWritten(ws[..|ws| - 1]);
    }
  }

  lemma {:induction false} WrittenConcat(write: Word -> seq<byte>, a: seq<Word>, b: seq<Word>)
    ensures Written(write, a + b) == Written(write, a) + Written(write, b)
  {
    if b == [] {
      assert a + b == a;
    } else {
      WrittenConcat(write, a, b[..|b| - 1]);
      assert (a + b)[..|a + b| - 1] == a + b[..|b| - 1];
    }
  }

  lemma WrittenFour(write: Word -> seq<byte>, w: seq<Word>)
    requires |w| == 4
    ensures Written(write, w) == write(w[0]) + write(w[1]) + write(w[2]) + write(w[3])
  {
    assert w[..4] == w && Written(write, w[..0]) + write(w[0]) == write(w[0]);
    WrittenSnoc(write, w, 0);
    WrittenSnoc(write, w, 1);
    WrittenSnoc(write, w, 2);
    WrittenSnoc(write, w, 3);
  }

  lemma WrittenSnoc(write: Word -> seq<byte>, w: seq<Word>, k: nat)
    requires k < |w|
    ensures Written(write, w[..k + 1]) == Written(write, w[..k]) + write(w[k])
  {
    assert w[..k + 1][..k] == w[..k];
  }

  lemma WrittenEight(write: Word -> seq<byte>, w: seq<Word>)
    requires |w| == 8
    ensures Written(write, w) == (write(w[0]) + write(w[1]) + write(w[2]) + write(w[3]))
                               + (write(w[4]) + write(w[5]) + write(w[6]) + write(w[7]))
  {
    WrittenConcat(write, w[..4], w[4..]);
    assert w[..4] + w[4..] == w;
    WrittenFour(write, w[..4]);
    WrittenFour(write, w[4..]);
  }

  lemma BytesConcat(a: seq<Word>, b: seq<Word>)
    ensures DigestBytes(a + b) == DigestBytes(a) + DigestBytes(b)
  {
    BytesWritten(a);
    BytesWritten(b);
    BytesWritten(a + b);
    WrittenConcat(WordBytes, a, b);
  }

  lemma {:induction false} BytesAt(ws: seq<Word>, t: nat)
    requires t < |ws|
    ensures DigestBytes(ws)[4 * t..4 * t + 4] == WordBytes(ws[t])
  {
    if t < |ws| - 1 {
      BytesAt(ws[..|ws| - 1], t);
    }
  }

  /** Parsing a block reads the words it was written from. */
  lemma ParseWords(ws: seq<Word>)
    requires |ws| == 16
    ensures Parse(DigestBytes(ws)) == ws
  {
    var block := DigestBytes(ws);
    forall t | 0 <= t < 16
      ensures Parse(block)[t] == ws[t]
    {
      BytesAt(ws, t);
      WordBytesRoundTrip(ws[t]);
      var s := block[4 * t..4 * t + 4];
      assert s[0] == block[4 * t] && s[1] == block[4 * t + 1] && s[2] == block[4 * t + 2] && s[3] == block[4 * t + 3];
    }
  }

  /** One more block of a message, from its words to the next hash value. */
  lemma NextHash(prefix: seq<byte>, ws: seq<Word>, h: Vars, t: Vars, u: Vars)
    requires |prefix| % 64 == 0 && Fold(Compression, prefix) == h && |ws| == 16
    requires Rounds(h, ws, |SHA256_K|) == t && Sum(h, t) == u
    ensures (|prefix| + 64) % 64 == 0 && Fold(Compression, prefix + DigestBytes(ws)) == u
  {
    ParseWords(ws);
    FoldBlock(Compression, prefix, DigestBytes(ws));
  }

  /** The round as a value. */
  function TheRound(): (round: Turn)
    ensures IsRound(round)
  {
    (v, k, w) => Round(v, k, w)
  }
}
