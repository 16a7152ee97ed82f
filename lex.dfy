/** Specifications the view's loops are proved against: three-way
    lexicographic comparison, occurrence of a needle at an index, and the
    element sum behind the hash. */
module Lex {
  import opened SeqTraits

  /** -1, 0 or 1 by the sign of x. */
  function Sign(x: int): int
  {
    if x < 0 then -1 else if x > 0 then 1 else 0
  }

  /** Three-way lexicographic comparison: the first differing element decides
      by Lt; when one sequence runs out first, the shorter one is less. */
  function LexCompare(a: seq<char>, b: seq<char>): (r: int)
    ensures -1 <= r <= 1
    ensures r == 0 ==> |a| == |b|
    decreases |a|
  {
    if |a| == 0 || |b| == 0 then Sign(|a| - |b|)
    else if Eq(a[0], b[0]) then LexCompare(a[1..], b[1..])
    else if Lt(a[0], b[0]) then -1
    else 1
  }

  /** Reference definition of "a sorts strictly before b": at some index k both
      agree on everything before k, and either a ends at k while b goes on, or
      a's element at k is smaller. */
  ghost predicate LessAt(a: seq<char>, b: seq<char>, k: nat)
  {
    k <= |a| && k <= |b| && a[..k] == b[..k] &&
    ((k == |a| && k < |b|) || (k < |a| && k < |b| && Lt(a[k], b[k])))
  }

  ghost predicate LexLess(a: seq<char>, b: seq<char>)
  {
    exists k: nat :: LessAt(a, b, k)
  }

  /** Needle v occurs in s starting at index i. */
  ghost predicate MatchAt(s: seq<char>, v: seq<char>, i: nat)
  {
    i + |v| <= |s| && s[i..i + |v|] == v
  }

  /** Dropping a common first element does not change the comparison. */
  lemma LexCompareStep(a: seq<char>, b: seq<char>, i: nat)
    requires i < |a| && i < |b| && a[i] == b[i]
    ensures LexCompare(a[i..], b[i..]) == LexCompare(a[i + 1..], b[i + 1..])
  {
    assert a[i..][1..] == a[i + 1..];
    assert b[i..][1..] == b[i + 1..];
  }

  /** The comparison is zero exactly for equal sequences. */
  lemma {:induction false} LexCompareZeroIff(a: seq<char>, b: seq<char>)
    ensures LexCompare(a, b) == 0 <==> a == b
    decreases |a|
  {
    if |a| > 0 && |b| > 0 {
      LexCompareZeroIff(a[1..], b[1..]);
      if a[0] == b[0] && a[1..] == b[1..] {
        assert a == [a[0]] + a[1..] && b == [b[0]] + b[1..];
      }
    }
  }

  /** compare(self) == 0. */
  lemma LexCompareReflexive(a: seq<char>)
    ensures LexCompare(a, a) == 0
  {
    LexCompareZeroIff(a, a);
  }

  /** Swapping the operands negates the comparison. */
  lemma {:induction false} LexCompareAntisymmetric(a: seq<char>, b: seq<char>)
    ensures LexCompare(b, a) == -LexCompare(a, b)
    decreases |a|
  {
    if |a| > 0 && |b| > 0 && a[0] == b[0] {
      LexCompareAntisymmetric(a[1..], b[1..]);
    }
  }

  /** At the first differing index, the smaller element makes its sequence
      the smaller one. */
  lemma {:induction false} LexCompareFirstDifference(a: seq<char>, b: seq<char>, k: nat)
    requires k < |a| && k < |b| && a[..k] == b[..k] && a[k] != b[k]
    ensures LexCompare(a, b) == if Lt(a[k], b[k]) then -1 else 1
    decreases k
  {
    if k > 0 {
      assert a[0] == a[..k][0] == b[..k][0] == b[0];
      assert a[1..][..k - 1] == a[1..k] == b[1..k] == b[1..][..k - 1];
      LexCompareFirstDifference(a[1..], b[1..], k - 1);
    }
  }

  /** A proper prefix compares less than the longer sequence. */
  lemma {:induction false} LexComparePrefix(a: seq<char>, b: seq<char>)
    requires |a| < |b| && a == b[..|a|]
    ensures LexCompare(a, b) == -1
    decreases |a|
  {
    if |a| > 0 {
      assert a[0] == b[0];
      assert a[1..] == b[1..][..|a| - 1];
      LexComparePrefix(a[1..], b[1..]);
    }
  }

  /** The comparison is negative exactly when a sorts strictly before b by the
      reference definition. */
  lemma {:induction false} LexCompareNegativeIff(a: seq<char>, b: seq<char>)
    ensures LexCompare(a, b) < 0 <==> LexLess(a, b)
    decreases |a|
  {
    if LexCompare(a, b) < 0 {
      if |a| == 0 || |b| == 0 {
        assert LessAt(a, b, 0);
      } else if a[0] == b[0] {
        LexCompareNegativeIff(a[1..], b[1..]);
        var k: nat :| LessAt(a[1..], b[1..], k);
        assert a[..k + 1] == [a[0]] + a[1..][..k];
        assert b[..k + 1] == [b[0]] + b[1..][..k];
        assert LessAt(a, b, k + 1);
      } else {
        assert LessAt(a, b, 0);
      }
    }
    if LexLess(a, b) {
      var k: nat :| LessAt(a, b, k);
      if k == |a| {
        LexComparePrefix(a, b);
      } else {
        LexCompareFirstDifference(a, b, k);
      }
    }
  }

  /** Comparing only the first |b| elements of a longer-or-equal a, then
      breaking a tie by length, gives the full comparison. */
  lemma {:induction false} LexCompareTruncated(a: seq<char>, b: seq<char>)
    requires |b| <= |a|
    ensures LexCompare(a, b) ==
      if LexCompare(a[..|b|], b) != 0 then LexCompare(a[..|b|], b) else Sign(|a| - |b|)
    decreases |b|
  {
    if |b| > 0 && a[0] == b[0] {
      assert a[..|b|][1..] == a[1..][..|b| - 1];
      LexCompareTruncated(a[1..], b[1..]);
    }
  }

  /** Comparing a window w of |b| elements read from where a starts (which is
      a's own prefix when a is at least as long as b), then breaking a tie by
      length, gives zero exactly when a equals b. */
  lemma OverReadCompareZeroIff(a: seq<char>, w: seq<char>, b: seq<char>)
    requires |w| == |b|
    requires |a| >= |b| ==> w == a[..|b|]
    ensures (if LexCompare(w, b) != 0 then LexCompare(w, b) else Sign(|a| - |b|)) == 0 <==> a == b
  {
    LexCompareZeroIff(w, b);
    if |a| == |b| {
      assert a[..|b|] == a;
    }
  }

  /** Sum of the character codes, accumulated front to back. */
  function Sum(s: seq<char>): nat
  {
    if s == [] then 0 else Sum(s[..|s| - 1]) + s[|s| - 1] as nat
  }

  lemma {:induction false} SumAppend(a: seq<char>, b: seq<char>)
    ensures Sum(a + b) == Sum(a) + Sum(b)
    decreases |b|
  {
    if b == [] {
      assert a + b == a;
    } else {
      assert (a + b)[..|a + b| - 1] == a + b[..|b| - 1];
      SumAppend(a, b[..|b| - 1]);
    }
  }

  /** The sum ignores order: swapping two halves leaves it unchanged, so
      "ab" and "ba" collide. */
  lemma SumSwapHalves(a: seq<char>, b: seq<char>)
    ensures Sum(a + b) == Sum(b + a)
  {
    SumAppend(a, b);
    SumAppend(b, a);
  }
}
