/** A non-owning, read-only window (start, length) over an external character
    buffer, with checked and unchecked access, clamped narrowing, swapping,
    bounded copying, three-way comparison, sub-windows and naive search. */
module SequenceView {
  import opened SeqTraits
  import opened Lex

  /** The std::out_of_range thrown by the checked operations, with its message. */
  datatype Error = OutOfRange(what: string)

  datatype Result<T> = Ok(value: T) | Err(error: Error)

  function Min(a: nat, b: nat): nat
  {
    if a < b then a else b
  }

  /** The modulus of std::size_t arithmetic. */
  const SIZE_MODULUS: nat := NPOS + 1

  class Sequence {
    /** The external buffer; `st` is the index of the window's first element
        in it (the source's start pointer) and `sz` the window's length. The
        view never writes `buf`. */
    var buf: seq<char>
    var st: nat
    var sz: Size

    /** The window lies inside the buffer: the caller's obligation that
        [st, st+sz) is readable for the view's lifetime. */
    ghost predicate Valid()
      reads this
    {
      st + sz <= |buf|
    }

    /** The elements the view shows. */
    ghost function Contents(): seq<char>
      reads this
      requires Valid()
    {
      buf[st..st + sz]
    }

    /** The default view: empty, over no buffer. */
    constructor ()
      ensures Valid() && buf == [] && st == 0 && sz == 0
      ensures Contents() == []
    {
      buf, st, sz := [], 0, 0;
    }

    /** A shallow copy: the same buffer, start and length as `other`. */
    constructor FromView(other: Sequence)
      requires other.Valid()
      ensures Valid() && buf == other.buf && st == other.st && sz == other.sz
      ensures Contents() == other.Contents()
    {
      buf, st, sz := other.buf, other.st, other.sz;
    }

    /** A view of `count` elements starting at index `start` of `s`. */
    constructor FromPointer(s: seq<char>, start: nat, count: Size)
      requires start + count <= |s|
      ensures Valid() && buf == s && st == start && sz == count
      ensures Contents() == s[start..start + count]
    {
      buf, st, sz := s, start, count;
    }

    /** A view from index `start` of `s` up to, not including, the first NUL. */
    constructor FromSentinel(s: seq<char>, start: nat)
      requires start <= |s| && '\0' in s[start..] && |s| - start <= NPOS
      ensures Valid() && buf == s && st == start && sz == Length(s[start..])
      ensures '\0' !in Contents() && st + sz < |s| && s[st + sz] == '\0'
    {
      buf, st := s, start;
      sz := Length(s[start..]);
    }

    /** operator=: take over the other view's buffer, start and length. */
    method AssignFrom(view: Sequence)
      requires view.Valid()
      modifies this
      ensures Valid() && buf == view.buf && st == view.st && sz == view.sz
      ensures Contents() == old(view.Contents())
    {
      sz := view.sz;
      buf, st := view.buf, view.st;
    }

    /** operator[]: unchecked access; an index outside the window is undefined
        behaviour, so it is excluded by the precondition. */
    function Get(pos: nat): (c: char)
      reads this
      requires Valid() && pos < sz
      ensures c == Contents()[pos]
    {
      buf[st + pos]
    }

    /** Checked access: out of range exactly when pos >= size(), otherwise the
        same element operator[] gives. */
    function At(pos: nat): (r: Result<char>)
      reads this
      requires Valid()
      ensures r.Err? <==> pos >= sz
      ensures r.Err? ==> r.error == OutOfRange("Out of range")
      ensures r.Ok? ==> r.value == Get(pos) && r.value == Contents()[pos]
    {
      if pos >= sz then Err(OutOfRange("Out of range")) else Ok(buf[st + pos])
    }

    /** The first element; undefined on an empty view. */
    function Front(): (c: char)
      reads this
      requires Valid() && sz > 0
      ensures c == Contents()[0]
    {
      buf[st]
    }

    /** The last element; undefined on an empty view. */
    function Back(): (c: char)
      reads this
      requires Valid() && sz > 0
      ensures c == Contents()[|Contents()| - 1]
    {
      buf[st + sz - 1]
    }

    function Size(): (n: Size)
      reads this
      requires Valid()
      ensures n == |Contents()|
    {
      sz
    }

    function Empty(): (e: bool)
      reads this
      requires Valid()
      ensures e <==> Contents() == []
    {
      sz == 0
    }

    /** Drop the first n elements; a view no longer than n becomes empty
        (its start is then left where it was). */
    method RemovePrefix(n: Size)
      requires Valid()
      modifies this
      ensures Valid() && buf == old(buf)
      ensures n >= old(sz) ==> st == old(st) && sz == 0
      ensures n < old(sz) ==> st == old(st) + n && sz == old(sz) - n
      ensures Contents() == if n >= old(sz) then [] else old(Contents())[n..]
    {
      if n >= sz {
        sz := 0;
      } else {
        st := st + n;
        sz := sz - n;
      }
    }

    /** Drop the last n elements; a view no longer than n becomes empty. */
    method RemoveSuffix(n: Size)
      requires Valid()
      modifies this
      ensures Valid() && buf == old(buf) && st == old(st)
      ensures sz == if n >= old(sz) then 0 else old(sz) - n
      ensures Contents() == if n >= old(sz) then [] else old(Contents())[..old(sz) - n]
    {
      ghost var before := Contents();
      if n >= sz {
        sz := 0;
      } else {
        sz := sz - n;
        assert Contents() == before[..sz];
      }
    }

    /** Exchange windows with v (when v is this view, nothing changes). */
    method Swap(v: Sequence)
      requires Valid() && v.Valid()
      modifies this, v
      ensures Valid() && v.Valid()
      ensures buf == old(v.buf) && st == old(v.st) && sz == old(v.sz)
      ensures v.buf == old(buf) && v.st == old(st) && v.sz == old(sz)
      ensures Contents() == old(v.Contents()) && v.Contents() == old(Contents())
    {
      var temp, tempBuf := v.st, v.buf;
      v.st, v.buf := st, buf;
      st, buf := temp, tempBuf;
      var tt := v.sz;
      v.sz := sz;
      sz := tt;
    }

    /** copy as the source writes it: the out-of-range check uses `pos`, but
        the count and the source offset ignore it, so it copies the first
        min(size(), count) elements of the window. */
    method CopyAsWritten(dest: array<char>, count: Size, pos: Size := 0) returns (r: Result<Size>)
      requires Valid()
      requires pos < sz ==> Min(sz, count) <= dest.Length
      modifies dest
      ensures r.Err? <==> pos >= sz
      ensures r.Err? ==> r.error == OutOfRange("out of ranggee") && dest[..] == old(dest[..])
      ensures r.Ok? ==> r.value == Min(sz, count)
      ensures r.Ok? ==> dest[..r.value] == Contents()[..r.value]
      ensures r.Ok? ==> dest[r.value..] == old(dest[r.value..])
    {
      if pos >= sz {
        return Err(OutOfRange("out of ranggee"));
      }
      var min := if sz < count then sz else count;
      for f := 0 to min
        invariant Valid()
        invariant forall j :: 0 <= j < f ==> dest[j] == Contents()[j]
        invariant forall j :: f <= j < dest.Length ==> dest[j] == old(dest[j])
      {
        Assign(dest, f, buf[st + f]);
      }
      return Ok(min);
    }

    /** copy as intended: min(size() - pos, count) elements starting at `pos`
        of the window. */
    method Copy(dest: array<char>, count: Size, pos: Size := 0) returns (r: Result<Size>)
      requires Valid()
      requires pos < sz ==> Min(sz - pos, count) <= dest.Length
      modifies dest
      ensures r.Err? <==> pos >= sz
      ensures r.Err? ==> r.error == OutOfRange("out of ranggee") && dest[..] == old(dest[..])
      ensures r.Ok? ==> r.value == Min(sz - pos, count) && pos + r.value <= sz
      ensures r.Ok? ==> dest[..r.value] == Contents()[pos..pos + r.value]
      ensures r.Ok? ==> dest[r.value..] == old(dest[r.value..])
    {
      if pos >= sz {
        return Err(OutOfRange("out of ranggee"));
      }
      var min := if sz - pos < count then sz - pos else count;
      for f := 0 to min
        invariant Valid()
        invariant forall j :: 0 <= j < f ==> dest[j] == Contents()[pos + j]
        invariant forall j :: f <= j < dest.Length ==> dest[j] == old(dest[j])
      {
        Assign(dest, f, buf[st + pos + f]);
      }
      return Ok(min);
    }

    /** Three-way comparison over the common prefix (bound min(size(),
        v.size())), ties broken by length. */
    method Compare(v: Sequence) returns (r: int)
      requires Valid() && v.Valid()
      ensures r == LexCompare(Contents(), v.Contents())
    {
      var n := Min(sz, v.sz);
      var i := 0;
      while i < n
        invariant i <= n
        invariant LexCompare(Contents(), v.Contents()) == LexCompare(Contents()[i..], v.Contents()[i..])
      {
        var x, y := buf[st + i], v.buf[v.st + i];
        if Eq(x, y) {
          LexCompareStep(Contents(), v.Contents(), i);
          i := i + 1;
          continue;
        }
        if Lt(x, y) {
          return -1;
        } else {
          // Lt is a strict total order, so the source's `lt(y, x)` holds here.
          LtIsStrictTotalOrder(x, y, y);
          assert Lt(y, x);
          return 1;
        }
      }
      if sz > v.sz {
        r := 1;
      } else if sz < v.sz {
        r := -1;
      } else {
        r := 0;
      }
    }

    /** compare as the source writes it: the comma operator leaves only
        `i < v.size()` as the loop bound, so when this view is shorter than v
        the loop reads this view's buffer past its window (within the buffer,
        or the behaviour is undefined). */
    method CompareAsWritten(v: Sequence) returns (r: int)
      requires Valid() && v.Valid()
      requires st + v.sz <= |buf|
      ensures var c := LexCompare(buf[st..st + v.sz], v.Contents());
        r == if c != 0 then c else Sign(sz - v.sz)
      ensures sz >= v.sz ==> r == LexCompare(Contents(), v.Contents())
      ensures r == 0 <==> Contents() == v.Contents()
    {
      ghost var w, a, b := buf[st..st + v.sz], Contents(), v.Contents();
      ghost var expected := if LexCompare(w, b) != 0 then LexCompare(w, b) else Sign(sz - v.sz);
      if sz >= v.sz {
        assert a[..v.sz] == w;
        LexCompareTruncated(a, b);
      }
      OverReadCompareZeroIff(a, w, b);
      var i := 0;
      while i < v.sz
        invariant i <= v.sz
        invariant LexCompare(w, b) == LexCompare(w[i..], b[i..])
      {
        var x, y := buf[st + i], v.buf[v.st + i];
        assert x == w[i] && y == b[i];
        if Eq(x, y) {
          LexCompareStep(w, b, i);
          i := i + 1;
          continue;
        }
        if Lt(x, y) {
          assert expected == -1;
          return -1;
        } else {
          LtIsStrictTotalOrder(x, y, y);
          assert Lt(y, x);
          assert expected == 1;
          return 1;
        }
      }
      assert LexCompare(w, b) == 0;
      if sz > v.sz {
        r := 1;
      } else if sz < v.sz {
        r := -1;
      } else {
        r := 0;
      }
    }

    /** subseq: out of range when pos >= size(); otherwise a new view over the
        same buffer, starting pos elements in and min(count, size() - pos)
        long. */
    method Subseq(pos: Size := 0, count: Size := NPOS) returns (r: Result<Sequence>)
      requires Valid()
      ensures r.Err? <==> pos >= sz
      ensures r.Err? ==> r.error == OutOfRange("sequence subseq :(")
      ensures r.Ok? ==> fresh(r.value) && r.value.Valid()
      ensures r.Ok? ==> r.value.buf == buf && r.value.st == st + pos
      ensures r.Ok? ==> r.value.sz == Min(count, sz - pos)
      ensures r.Ok? ==> r.value.Contents() == Contents()[pos..pos + Min(count, sz - pos)]
      ensures r.Ok? && pos == 0 && count >= sz ==> r.value.Contents() == Contents()
    {
      if pos >= sz {
        return Err(OutOfRange("sequence subseq :("));
      }
      var c := count;
      if c >= sz {
        c := sz;
      }
      if pos + c >= sz {
        c := sz - pos;
      }
      var w := new Sequence.FromPointer(buf, st + pos, c);
      return Ok(w);
    }

    /** The test both searches make at index p,
        `subseq(p, v.size()).compare(v) == 0`: whether v occurs at p. */
    method MatchesAt(v: Sequence, p: nat) returns (m: bool)
      requires Valid() && v.Valid() && p < sz && p + v.sz <= sz
      ensures m <==> MatchAt(Contents(), v.Contents(), p)
    {
      var sub := Subseq(p, v.sz);
      var c := sub.value.Compare(v);
      LexCompareZeroIff(sub.value.Contents(), v.Contents());
      m := c == 0;
    }

    /** Forward search from `pos`: the lowest match at or after pos, or NPOS.
        An empty needle with pos == size() reaches subseq(size(), 0), which
        throws inside a noexcept function, i.e. terminates; that call is
        excluded. */
    method Find(v: Sequence, pos: Size := 0) returns (r: Size)
      requires Valid() && v.Valid() && (v.sz > 0 || pos != sz)
      ensures v.sz > sz ==> r == NPOS
      ensures r == NPOS <==> forall i: nat :: pos <= i ==> !MatchAt(Contents(), v.Contents(), i)
      ensures r != NPOS ==> pos <= r && r + v.sz <= sz && MatchAt(Contents(), v.Contents(), r)
      ensures r != NPOS ==> forall i: nat :: pos <= i < r ==> !MatchAt(Contents(), v.Contents(), i)
    {
      if v.sz > sz {
        return NPOS;
      }
      var p: nat := pos;
      while p + v.sz <= sz
        invariant pos <= p
        invariant v.sz == 0 ==> p == pos
        invariant forall i: nat :: pos <= i < p ==> !MatchAt(Contents(), v.Contents(), i)
        decreases sz - p
      {
        var m := MatchesAt(v, p);
        if m {
          return p;
        }
        p := p + 1;
      }
      return NPOS;
    }

    /** Backward search: the highest match at or before
        min(pos, size() - v.size()), or NPOS. An empty needle with
        pos >= size() (the default npos included) reaches subseq(size(), 0),
        which throws inside a noexcept function, i.e. terminates; that call
        is excluded. */
    method RFind(v: Sequence, pos: Size := NPOS) returns (r: Size)
      requires Valid() && v.Valid() && (v.sz > 0 || pos < sz)
      ensures v.sz > sz ==> r == NPOS
      ensures r == NPOS <==> forall i: nat :: i <= pos ==> !MatchAt(Contents(), v.Contents(), i)
      ensures r != NPOS ==> r <= pos && r + v.sz <= sz && MatchAt(Contents(), v.Contents(), r)
      ensures r != NPOS ==> forall i: nat :: r < i <= pos ==> !MatchAt(Contents(), v.Contents(), i)
    {
      if v.sz > sz {
        return NPOS;
      }
      var p: nat := pos;
      if p > sz - v.sz {
        p := sz - v.sz;
      }
      while p > 0
        invariant p <= pos && p + v.sz <= sz
        invariant forall i: nat :: p < i <= pos ==> !MatchAt(Contents(), v.Contents(), i)
      {
        var m := MatchesAt(v, p);
        if m {
          return p;
        }
        p := p - 1;
      }
      var m := MatchesAt(v, p);
      if m {
        return p;
      }
      return NPOS;
    }
  }

  /** operator==: equal contents. */
  method Equal(lhs: Sequence, rhs: Sequence) returns (b: bool)
    requires lhs.Valid() && rhs.Valid()
    ensures b <==> lhs.Contents() == rhs.Contents()
  {
    var c := lhs.Compare(rhs);
    LexCompareZeroIff(lhs.Contents(), rhs.Contents());
    b := c == 0;
  }

  /** operator!=: different contents. */
  method NotEqual(lhs: Sequence, rhs: Sequence) returns (b: bool)
    requires lhs.Valid() && rhs.Valid()
    ensures b <==> lhs.Contents() != rhs.Contents()
  {
    var c := lhs.Compare(rhs);
    LexCompareZeroIff(lhs.Contents(), rhs.Contents());
    b := c != 0;
  }

  /** operator<: lhs sorts strictly before rhs. */
  method Less(lhs: Sequence, rhs: Sequence) returns (b: bool)
    requires lhs.Valid() && rhs.Valid()
    ensures b <==> LexLess(lhs.Contents(), rhs.Contents())
  {
    var c := lhs.Compare(rhs);
    LexCompareNegativeIff(lhs.Contents(), rhs.Contents());
    b := c < 0;
  }

  /** operator>: rhs sorts strictly before lhs. */
  method Greater(lhs: Sequence, rhs: Sequence) returns (b: bool)
    requires lhs.Valid() && rhs.Valid()
    ensures b <==> LexLess(rhs.Contents(), lhs.Contents())
  {
    var c := lhs.Compare(rhs);
    LexCompareAntisymmetric(lhs.Contents(), rhs.Contents());
    LexCompareNegativeIff(rhs.Contents(), lhs.Contents());
    b := c > 0;
  }

  /** operator>=: lhs does not sort strictly before rhs. */
  method GreaterEqual(lhs: Sequence, rhs: Sequence) returns (b: bool)
    requires lhs.Valid() && rhs.Valid()
    ensures b <==> !LexLess(lhs.Contents(), rhs.Contents())
    ensures b <==> LexLess(rhs.Contents(), lhs.Contents()) || lhs.Contents() == rhs.Contents()
  {
    var c := lhs.Compare(rhs);
    LexCompareNegativeIff(lhs.Contents(), rhs.Contents());
    LexCompareAntisymmetric(lhs.Contents(), rhs.Contents());
    LexCompareNegativeIff(rhs.Contents(), lhs.Contents());
    LexCompareZeroIff(lhs.Contents(), rhs.Contents());
    b := c >= 0;
  }

  /** operator<= as intended: the sign of compare is at most zero. */
  method LessEqual(lhs: Sequence, rhs: Sequence) returns (b: bool)
    requires lhs.Valid() && rhs.Valid()
    ensures b <==> LexLess(lhs.Contents(), rhs.Contents()) || lhs.Contents() == rhs.Contents()
    ensures b <==> !LexLess(rhs.Contents(), lhs.Contents())
  {
    var c := lhs.Compare(rhs);
    LexCompareNegativeIff(lhs.Contents(), rhs.Contents());
    LexCompareAntisymmetric(lhs.Contents(), rhs.Contents());
    LexCompareNegativeIff(rhs.Contents(), lhs.Contents());
    LexCompareZeroIff(lhs.Contents(), rhs.Contents());
    b := c <= 0;
  }

  /** operator<= as the source writes it: the three-way result converted to
      bool, which is true exactly when the contents differ. */
  method LessEqualAsWritten(lhs: Sequence, rhs: Sequence) returns (b: bool)
    requires lhs.Valid() && rhs.Valid()
    ensures b <==> lhs.Contents() != rhs.Contents()
  {
    var c := lhs.Compare(rhs);
    LexCompareZeroIff(lhs.Contents(), rhs.Contents());
    b := c != 0;
  }

  /** std::hash: the sum of the elements in size_t arithmetic. */
  method Hash(s: Sequence) returns (h: Size)
    requires s.Valid()
    ensures h == Sum(s.Contents()) % SIZE_MODULUS
  {
    var res: nat := 0;
    for sq := 0 to s.Size()
      invariant res == Sum(s.Contents()[..sq]) % SIZE_MODULUS
    {
      ghost var c := s.Contents();
      assert c[..sq + 1][..sq] == c[..sq];
      AddMod(Sum(c[..sq]), c[sq] as nat);
      res := (res + s.Get(sq) as nat) % SIZE_MODULUS;
    }
    assert s.Contents()[..s.sz] == s.Contents();
    return res;
  }

  /** Reducing the running sum before each addition does not change the
      final size_t value. */
  lemma AddMod(a: nat, b: nat)
    ensures (a % 0x1_0000_0000_0000_0000 + b) % 0x1_0000_0000_0000_0000
      == (a + b) % 0x1_0000_0000_0000_0000
  {
  }

  /** Swapping twice restores both views. */
  method SwapTwice(a: Sequence, b: Sequence)
    requires a.Valid() && b.Valid()
    modifies a, b
    ensures a.Valid() && b.Valid()
    ensures a.buf == old(a.buf) && a.st == old(a.st) && a.sz == old(a.sz)
    ensures b.buf == old(b.buf) && b.st == old(b.st) && b.sz == old(b.sz)
  {
    a.Swap(b);
    a.Swap(b);
  }

  /** "ab".copy(dest, 1, 1): the source copies 'a', the intended copy 'b'. */
  method CopyIgnoresPosExample() returns (asWritten: char, intended: char)
    ensures asWritten == 'a' && intended == 'b'
  {
    var view := new Sequence.FromPointer("ab", 0, 2);
    var d1 := new char[1](_ => ' ');
    assert view.Contents() == "ab";
    var r1 := view.CopyAsWritten(d1, 1, 1);
    assert d1[..1] == view.Contents()[..1] == "a";
    asWritten := d1[0];
    var d2 := new char[1](_ => ' ');
    var r2 := view.Copy(d2, 1, 1);
    assert d2[..1] == view.Contents()[1..2] == "b";
    intended := d2[0];
  }

  /** The view "a" over the buffer "az" compared with "ab": the source reads
      the 'z' past the window and answers 1; the intended answer is -1, since
      a proper prefix is less. */
  method CompareOverReadExample() returns (asWritten: int, intended: int)
    ensures asWritten == 1 && intended == -1
  {
    var a := new Sequence.FromPointer("az", 0, 1);
    var b := new Sequence.FromPointer("ab", 0, 2);
    asWritten := a.CompareAsWritten(b);
    assert LexCompare("az"[0..2], b.Contents()) == 1 by {
      LexCompareFirstDifference("az", "ab", 1);
    }
    intended := a.Compare(b);
    LexComparePrefix(a.Contents(), b.Contents());
  }

  /** "a" <= "a": the source answers false, the intended answer is true. */
  method LessEqualExample() returns (asWritten: bool, intended: bool)
    ensures !asWritten && intended
  {
    var a := new Sequence.FromPointer("a", 0, 1);
    var b := new Sequence.FromPointer("a", 0, 1);
    asWritten := LessEqualAsWritten(a, b);
    intended := LessEqual(a, b);
  }
}
