/** The structural layer of DEF: greedy recognition of `--`, the component list
    it yields, and the join that puts a component list back together. */
module Structure {
  import opened Bytes
  import Utf8

  predicate AtSeparator(s: seq<byte>) {
    |s| >= 2 && s[0] == HYPHEN && s[1] == HYPHEN
  }

  /** Greedy recognition from left to right (section 6 of the DEF specification). */
  function Split(s: seq<byte>): (cs: seq<seq<byte>>)
    ensures |cs| > 0
  {
    if s == [] then [[]]
    else if AtSeparator(s) then [[]] + Split(s[2..])
    else var cs := Split(s[1..]); [[s[0]] + cs[0]] + cs[1..]
  }

  function Join(cs: seq<seq<byte>>): seq<byte>
    requires |cs| > 0
  {
    if |cs| == 1 then cs[0] else cs[0] + SEPARATOR + Join(cs[1..])
  }

  /** No separator starts inside `c`; one may still start at its last byte. */
  predicate NoSeparator(c: seq<byte>) {
    forall i | 0 <= i < |c| - 1 :: !(c[i] == HYPHEN && c[i + 1] == HYPHEN)
  }

  predicate EndsInHyphen(c: seq<byte>) {
    |c| > 0 && c[|c| - 1] == HYPHEN
  }

  /** The component lists greedy recognition can produce. */
  predicate Greedy(cs: seq<seq<byte>>) {
    && |cs| > 0
    && (forall i | 0 <= i < |cs| :: NoSeparator(cs[i]))
    && (forall i | 0 <= i < |cs| - 1 :: !EndsInHyphen(cs[i]))
  }

  lemma PrependConcat(p: seq<byte>, x: seq<byte>, y: seq<byte>, z: seq<byte>)
    ensures (p + x) + y + z == p + (x + y + z)
  {
  }

  lemma JoinPrepend(p: seq<byte>, cs: seq<seq<byte>>)
    requires |cs| > 0
    ensures Join([p + cs[0]] + cs[1..]) == p + Join(cs)
  {
    var ds := [p + cs[0]] + cs[1..];
    assert ds[1..] == cs[1..];
    if |cs| > 1 {
      PrependConcat(p, cs[0], SEPARATOR, Join(cs[1..]));
    }
  }

  lemma JoinEmptyFirst(cs: seq<seq<byte>>)
    requires |cs| > 0
    ensures Join([[]] + cs) == SEPARATOR + Join(cs)
  {
    assert ([[]] + cs)[1..] == cs;
    assert [] + SEPARATOR == SEPARATOR;
  }

  lemma {:induction false} JoinSplit(s: seq<byte>)
    ensures Join(Split(s)) == s
    decreases |s|
  {
    if s == [] {
    } else if AtSeparator(s) {
      JoinSplit(s[2..]);
      JoinEmptyFirst(Split(s[2..]));
      assert s == SEPARATOR + s[2..];
    } else {
      JoinSplit(s[1..]);
      JoinPrepend([s[0]], Split(s[1..]));
    }
  }

  lemma {:induction false} SplitGreedy(s: seq<byte>)
    ensures Greedy(Split(s))
    decreases |s|
  {
    if s == [] {
    } else if AtSeparator(s) {
      SplitGreedy(s[2..]);
    } else {
      SplitGreedy(s[1..]);
      FirstByte(s[1..]);
      PrependGreedy(s[0], Split(s[1..]));
    }
  }

  lemma PrependGreedy(b: byte, cs: seq<seq<byte>>)
    requires Greedy(cs)
    requires b == HYPHEN ==> (cs[0] == [] && |cs| == 1) || (cs[0] != [] && cs[0][0] != HYPHEN)
    ensures Greedy([[b] + cs[0]] + cs[1..])
  {
    var ds := [[b] + cs[0]] + cs[1..];
    assert forall i | 1 <= i < |ds| :: ds[i] == cs[i];
    assert NoSeparator(cs[0]);
    assert forall i | 0 < i < |ds[0]| :: ds[0][i] == cs[0][i - 1];
    assert NoSeparator(ds[0]);
    if |ds| > 1 {
      assert !EndsInHyphen(cs[0]);
    }
  }

  /** The first component is empty only before a separator or at the end. */
  lemma FirstByte(s: seq<byte>)
    ensures Split(s)[0] == [] <==> s == [] || AtSeparator(s)
    ensures Split(s)[0] != [] ==> Split(s)[0][0] == s[0]
    ensures Split(s)[0] == [] && s == [] ==> |Split(s)| == 1
  {
  }

  /** Greedy lists are the lists that survive being joined and split again. */
  lemma {:induction false} SplitJoin(cs: seq<seq<byte>>)
    requires Greedy(cs)
    ensures Split(Join(cs)) == cs
    decreases |cs|, |cs[0]|
  {
    if cs[0] == [] {
      if |cs| > 1 {
        assert cs == [[]] + cs[1..];
        JoinEmptyFirst(cs[1..]);
        assert (SEPARATOR + Join(cs[1..]))[2..] == Join(cs[1..]);
        SplitJoin(cs[1..]);
      }
    } else {
      var b, d := cs[0][0], [cs[0][1..]] + cs[1..];
      assert [b] + d[0] == cs[0] && d[1..] == cs[1..];
      TailGreedy(cs);
      SplitJoin(d);
      JoinPrepend([b], d);
      NoSeparatorAtStart(cs);
      assert Join(cs)[1..] == Join(d);
    }
  }

  lemma NoSeparatorAtStart(cs: seq<seq<byte>>)
    requires Greedy(cs) && cs[0] != []
    ensures !AtSeparator(Join(cs))
  {
    if |cs[0]| > 1 {
      assert Join(cs)[0] == cs[0][0] && Join(cs)[1] == cs[0][1];
    } else if |cs| > 1 {
      assert Join(cs)[0] == cs[0][0];
    }
  }

  lemma TailGreedy(cs: seq<seq<byte>>)
    requires Greedy(cs) && cs[0] != []
    ensures Greedy([cs[0][1..]] + cs[1..])
  {
    var d := [cs[0][1..]] + cs[1..];
    assert forall i | 1 <= i < |d| :: d[i] == cs[i];
    assert NoSeparator(cs[0]);
    assert forall i | 0 <= i < |d[0]| :: d[0][i] == cs[0][i + 1];
    assert NoSeparator(d[0]);
    if |d| > 1 {
      assert !EndsInHyphen(cs[0]);
    }
  }

  lemma GreedyIffSplitJoin(cs: seq<seq<byte>>)
    requires |cs| > 0
    ensures Split(Join(cs)) == cs <==> Greedy(cs)
  {
    if Greedy(cs) {
      SplitJoin(cs);
    }
    SplitGreedy(Join(cs));
  }

  // ----- mapping over components -----

  function LowerEach(cs: seq<seq<byte>>): seq<seq<byte>> {
    seq(|cs|, i requires 0 <= i < |cs| => Lower(cs[i]))
  }

  lemma {:induction false} LowerJoin(cs: seq<seq<byte>>)
    requires |cs| > 0
    ensures Lower(Join(cs)) == Join(LowerEach(cs))
  {
    if |cs| > 1 {
      LowerJoin(cs[1..]);
      LowerConcat(cs[0] + SEPARATOR, Join(cs[1..]));
      LowerConcat(cs[0], SEPARATOR);
      assert Lower(SEPARATOR) == SEPARATOR;
      assert LowerEach(cs)[1..] == LowerEach(cs[1..]);
    }
  }

  lemma LowerGreedy(cs: seq<seq<byte>>)
    requires |cs| > 0
    ensures Greedy(LowerEach(cs)) == Greedy(cs)
  {
    var ds := LowerEach(cs);
    forall i | 0 <= i < |cs|
      ensures NoSeparator(ds[i]) == NoSeparator(cs[i]) && EndsInHyphen(ds[i]) == EndsInHyphen(cs[i])
    {
      LowerHyphens(cs[i]);
    }
  }

  lemma LowerHyphens(c: seq<byte>)
    ensures NoSeparator(Lower(c)) == NoSeparator(c) && EndsInHyphen(Lower(c)) == EndsInHyphen(c)
  {
    assert forall i | 0 <= i < |c| :: (Lower(c)[i] == HYPHEN) == (c[i] == HYPHEN);
    if !NoSeparator(c) {
      var i :| 0 <= i < |c| - 1 && c[i] == HYPHEN && c[i + 1] == HYPHEN;
      assert Lower(c)[i] == HYPHEN && Lower(c)[i + 1] == HYPHEN;
    }
    if !NoSeparator(Lower(c)) {
      var i :| 0 <= i < |c| - 1 && Lower(c)[i] == HYPHEN && Lower(c)[i + 1] == HYPHEN;
      assert c[i] == HYPHEN && c[i + 1] == HYPHEN;
    }
  }

  /** Canonicalisation moves no separator. */
  lemma SplitLower(s: seq<byte>)
    ensures Split(Lower(s)) == LowerEach(Split(s))
  {
    JoinSplit(s);
    SplitGreedy(s);
    LowerJoin(Split(s));
    LowerGreedy(Split(s));
    SplitJoin(LowerEach(Split(s)));
  }

  // ----- validity splits at separators -----

  predicate AllValid(cs: seq<seq<byte>>) {
    forall i | 0 <= i < |cs| :: Utf8.Valid(cs[i])
  }

  lemma {:induction false} JoinValid(cs: seq<seq<byte>>)
    requires |cs| > 0
    ensures Utf8.Valid(Join(cs)) == AllValid(cs)
  {
    if |cs| > 1 {
      var rest := Join(cs[1..]);
      assert cs[0] + SEPARATOR + rest == cs[0] + (SEPARATOR + rest);
      Utf8.ValidCut(cs[0], SEPARATOR + rest);
      Utf8.AsciiValid(SEPARATOR, rest);
      JoinValid(cs[1..]);
      assert forall i | 1 <= i < |cs| :: cs[i] == cs[1..][i - 1];
      assert AllValid(cs) == (Utf8.Valid(cs[0]) && AllValid(cs[1..])) by {
        if AllValid(cs[1..]) {
          forall i | 1 <= i < |cs|
            ensures Utf8.Valid(cs[i])
          {
            assert Utf8.Valid(cs[1..][i - 1]);
          }
        }
      }
    }
  }

  /** Validating component by component is validating the whole string. */
  lemma SplitValid(s: seq<byte>)
    ensures AllValid(Split(s)) == Utf8.Valid(s)
  {
    JoinSplit(s);
    JoinValid(Split(s));
  }

  // ----- scanning for separators by index -----

  function Prepend(p: seq<byte>, cs: seq<seq<byte>>): seq<seq<byte>>
    requires |cs| > 0
  {
    [p + cs[0]] + cs[1..]
  }

  /** No separator has been met between `start` and `i`. */
  predicate InComponent(s: seq<byte>, start: nat, i: nat) {
    start <= i <= |s| && Split(s[start..]) == Prepend(s[start..i], Split(s[i..]))
  }

  lemma ComponentStart(s: seq<byte>, start: nat)
    requires start <= |s|
    ensures InComponent(s, start, start)
  {
    var cs := Split(s[start..]);
    assert s[start..start] + cs[0] == cs[0];
    assert [cs[0]] + cs[1..] == cs;
  }

  lemma ComponentGrows(s: seq<byte>, start: nat, i: nat)
    requires InComponent(s, start, i) && i < |s| && !AtSeparator(s[i..])
    ensures InComponent(s, start, i + 1)
  {
    var cs := Split(s[i + 1..]);
    assert s[i..][1..] == s[i + 1..];
    assert s[start..i + 1] == s[start..i] + [s[i]];
    assert s[start..i] + ([s[i]] + cs[0]) == s[start..i + 1] + cs[0];
  }

  lemma ComponentEndsAtSeparator(s: seq<byte>, start: nat, i: nat)
    requires InComponent(s, start, i) && AtSeparator(s[i..])
    ensures Split(s[start..]) == [s[start..i]] + Split(s[i + 2..])
  {
    assert s[i..][2..] == s[i + 2..];
    assert s[start..i] + [] == s[start..i];
  }

  lemma ComponentEndsAtEnd(s: seq<byte>, start: nat)
    requires InComponent(s, start, |s|)
    ensures Split(s[start..]) == [s[start..|s|]]
  {
    assert s[start..|s|] + [] == s[start..|s|];
  }
}
