/** Concrete uses of the view over short character buffers, each result
    derived from the operations' contracts alone. */
module Scenarios {
  import opened SeqTraits
  import opened Lex
  import opened SequenceView

  /** "hello world".find("world") is 6. */
  method FindWorld() returns (r: Size)
    ensures r == 6
  {
    var hay := new Sequence.FromPointer("hello world", 0, 11);
    var needle := new Sequence.FromPointer("world", 0, 5);
    r := hay.Find(needle);
    var s := hay.Contents();
    assert s == "hello world";
    assert MatchAt(s, needle.Contents(), 6);
    assert s[0..5][0] == 'h' && s[1..6][0] == 'e' && s[2..7][0] == 'l';
    assert s[3..8][0] == 'l' && s[4..9][0] == 'o' && s[5..10][0] == ' ';
  }

  /** "abcabc".rfind("abc") is 3. */
  method RFindAbc() returns (r: Size)
    ensures r == 3
  {
    var hay := new Sequence.FromPointer("abcabc", 0, 6);
    var needle := new Sequence.FromPointer("abc", 0, 3);
    r := hay.RFind(needle);
    var s := hay.Contents();
    assert s == "abcabc";
    assert MatchAt(s, needle.Contents(), 3);
  }

  /** "hello world".subseq(0, 5) compares equal to "hello". */
  method SubseqHello() returns (c: int)
    ensures c == 0
  {
    var hw := new Sequence.FromPointer("hello world", 0, 11);
    var sub := hw.Subseq(0, 5);
    var hello := new Sequence.FromPointer("hello", 0, 5);
    c := sub.value.Compare(hello);
    assert sub.value.Contents() == hello.Contents();
    LexCompareReflexive(hello.Contents());
  }

  /** "hello".at(10) and "".subseq(0) are both out of range. */
  method OutOfRangeCases() returns (atTen: Result<char>, emptySub: Result<Sequence>)
    ensures atTen.Err? && emptySub.Err?
  {
    var hello := new Sequence.FromPointer("hello", 0, 5);
    atTen := hello.At(10);
    var empty := new Sequence.FromSentinel("\0", 0);
    emptySub := empty.Subseq(0);
  }

  /** "ab".copy(dest, 10) copies 2 elements, "ab". */
  method CopyAb() returns (n: Size, copied: seq<char>)
    ensures n == 2 && copied == "ab"
  {
    var ab := new Sequence.FromPointer("ab", 0, 2);
    var dest := new char[10](_ => ' ');
    var r := ab.Copy(dest, 10);
    n := r.value;
    copied := dest[..n];
  }

  /** The summation hash cannot tell "ab" from "ba". */
  method HashCollision() returns (h1: Size, h2: Size)
    ensures h1 == h2
  {
    var ab := new Sequence.FromPointer("ab", 0, 2);
    var ba := new Sequence.FromPointer("ba", 0, 2);
    h1 := Hash(ab);
    h2 := Hash(ba);
    assert ab.Contents() == "a" + "b" && ba.Contents() == "b" + "a";
    SumSwapHalves("a", "b");
  }

  /** remove_prefix(n) followed by remove_suffix(size()) always leaves an
      empty view, whatever n is. */
  method NarrowToEmpty(s: seq<char>, n: Size) returns (empty: bool)
    requires |s| <= NPOS
    ensures empty
  {
    var view := new Sequence.FromPointer(s, 0, |s|);
    view.RemovePrefix(n);
    view.RemoveSuffix(view.Size());
    empty := view.Empty();
  }

  /** An empty needle is found at pos whenever pos < size(): "ab".find("", 1)
      and "ab".rfind("", 1) are both 1. */
  method EmptyNeedle() returns (f: Size, rf: Size)
    ensures f == 1 && rf == 1
  {
    var ab := new Sequence.FromPointer("ab", 0, 2);
    var empty := new Sequence();
    f := ab.Find(empty, 1);
    rf := ab.RFind(empty, 1);
    assert MatchAt(ab.Contents(), empty.Contents(), 1);
  }
}
