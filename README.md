# A verified model of `sequence<T, Traits>`

`sequence.h` defines `sequence<T, Traits>`, a non-owning, read-only window over
an external contiguous buffer, much like `std::basic_string_view`. The window
is a start position and a length. The policy `seq_traits` supplies element
equality (`eq`), ordering (`lt`), single-element assignment (`assign`) and the
length of a NUL-terminated buffer (`length`). The view never writes its
buffer. Only `remove_prefix`, `remove_suffix`, `swap` and assignment change a
view. `remove_prefix` and `remove_suffix` never make the window larger.
`swap` and assignment replace the window with another view's, which may be
longer.

The model has four files:

- `traits.dfy`, module `SeqTraits`: `seq_traits` for `char`. It also holds
  `Size` (a `std::size_t`, a natural number up to `NPOS` = 2^64 - 1).
- `lex.dfy`, module `Lex`: the specifications the view's loops are proved
  against.
  - `LexCompare` is the three-way lexicographic comparison. `LexLess` is an
    independent reference definition of "sorts strictly before".
  - `MatchAt` says that a needle occurs at an index.
  - `Sum` is the element sum behind the hash.
  - The lemmas relate these to each other.
- `sequence.dfy`, module `SequenceView`: the class `Sequence` and the free
  functions around it.
  - The class has a `buf: seq<char>` field (the external buffer), `st` (the
    index of the window's first element, i.e. the source's start pointer) and
    `sz`. `Valid()` is the caller's obligation that `[st, st+sz)` lies inside
    the buffer. `Contents()` is `buf[st..st+sz]`.
  - Mutators are methods with `modifies`. The counter-driven loops (`copy`,
    `compare`, `find`, `rfind`, the hash) are methods with loop invariants.
  - Access and size queries are functions.
  - The relational operators and `std::hash` are module-level methods, because
    they call `compare` or loop.
- `scenarios.dfy`, module `Scenarios`: concrete uses of the view whose results
  follow from the contracts alone.

Thrown `std::out_of_range` becomes `Err(OutOfRange(message))` with the
source's message. Undefined behaviour becomes a `requires` clause. That covers
`operator[]`, `front` and `back` out of range. It also covers the one
empty-needle call of `find` (`pos == size()`) and of `rfind`
(`pos >= size()`) that ends in `std::terminate`.

Deviations from the text of `sequence.h`:

- Line 206 declares the start field as `const_iterator *`, which is
  `const T**`. That is inconsistent with every constructor. The model treats
  the field as the start position `st`.
- An empty needle is found at `pos` whenever `pos < size()`, since
  `subseq(pos, 0)` compares equal to it (sequence.h:162-164, 176-182).
  `find` with an empty needle and `pos == size()` calls `subseq(size(), 0)`.
  So does `rfind` with an empty needle and `pos >= size()` (the default
  `npos` included). That call throws inside a `noexcept` function, which
  calls `std::terminate`. `Find` and `RFind` exclude exactly those calls.
- `subseq(0, size())` throws on an empty view because `0 >= 0`
  (sequence.h:150). `Subseq` therefore promises equality with the view only
  when the view is non-empty.
- `copy` ignores `pos` for both the count and the source offset
  (sequence.h:124-126); see Findings. `CopyAsWritten` models the code and
  `Copy` the intended behaviour.
- The source's relational operators (sequence.h:215-243) call the as-written
  `compare`, which over-reads when the left operand is shorter (see Findings).
  - `SequenceView.Less`, `SequenceView.Greater`, `SequenceView.GreaterEqual`
    and `SequenceView.LessEqual` are built on the corrected `Compare`. For the
    view "a" over the buffer "az" against "ab", the source's `<` is false
    while `Less` is true.
  - `SequenceView.Equal`, `SequenceView.NotEqual`,
    `SequenceView.LessEqualAsWritten`, `find` and `rfind` are unaffected. They
    only ask whether `compare` is zero. `CompareAsWritten` is zero exactly
    when the contents are equal, just like `Compare`, because a zero result
    needs equal lengths.

## Model

| member | source | states |
|---|---|---|
| `SeqTraits.Eq` | sequence.h:13-15 | two characters are equal exactly when `lt` orders them in neither direction |
| `SeqTraits.Lt` | sequence.h:17-19 | one character is less than another exactly when its code is smaller |
| `SeqTraits.LtIsStrictTotalOrder` | sequence.h:13-19 | `lt` is irreflexive and transitive; of any two characters, either they are `eq` or one is `lt` the other; `eq` characters are not `lt`-ordered |
| `SeqTraits.Assign` | sequence.h:21-23 | assigns the source character to the destination cell and leaves every other cell unchanged |
| `SeqTraits.Length` | sequence.h:25-27 | the result is the index of the first NUL: the element there is NUL and none before it is |
| `SequenceView.Sequence.constructor` | sequence.h:38 | the default view is empty |
| `SequenceView.Sequence.FromView` | sequence.h:40 | the copy shares the buffer, start and length, so it shows the same elements |
| `SequenceView.Sequence.FromPointer` | sequence.h:42 | the view shows exactly `count` elements from the given start |
| `SequenceView.Sequence.FromSentinel` | sequence.h:44 | the view runs up to the first NUL; it contains no NUL and the buffer has a NUL right after it |
| `SequenceView.Sequence.AssignFrom` | sequence.h:46-50 | afterwards this view has the other view's buffer, start and length |
| `SequenceView.Sequence.Get` | sequence.h:69-71 | `operator[](pos)` for `pos < size()` is element `pos` of the window, i.e. `buf[st+pos]` |
| `SequenceView.Sequence.At` | sequence.h:73-77 | fails with out-of-range iff `pos >= size()`; otherwise it gives the same element as `operator[]` |
| `SequenceView.Sequence.Front` | sequence.h:78-80 | on a non-empty view, the first element of the window |
| `SequenceView.Sequence.Back` | sequence.h:82-84 | on a non-empty view, the last element of the window |
| `SequenceView.Sequence.Size` | sequence.h:86-88 | the number of elements in the window |
| `SequenceView.Sequence.Empty` | sequence.h:90-92 | true iff the window has no elements |
| `SequenceView.Sequence.RemovePrefix` | sequence.h:94-101 | `n >= size()` makes the view empty with its start unchanged; otherwise the start advances by `n`, the size drops by exactly `n`, and the contents are the old contents without their first `n` elements; the buffer is untouched |
| `SequenceView.Sequence.RemoveSuffix` | sequence.h:103-109 | `n >= size()` makes the view empty; otherwise the size drops by exactly `n`; the start and the buffer never change, and the contents are the old contents without their last `n` elements |
| `SequenceView.Sequence.Swap` | sequence.h:111-118 | exchanges the buffer, start and size of the two views, and so their contents; both stay valid |
| `SequenceView.SwapTwice` | sequence.h:111-118 | swapping twice restores both views exactly |
| `SequenceView.Sequence.CopyAsWritten` | sequence.h:120-129 | as written: fails iff `pos >= size()` and then writes nothing; otherwise it returns `min(size(), count)`, sets `dest[f]` to element `f` of the window below that count, and leaves the other cells of `dest` unchanged |
| `SequenceView.Sequence.Copy` | sequence.h:120-129 | as intended: fails iff `pos >= size()`; otherwise it returns `min(size()-pos, count)`, copies the window's elements from `pos` onwards, and leaves the other cells of `dest` unchanged |
| `SequenceView.CopyIgnoresPosExample` | sequence.h:121-128 | `"ab".copy(dest, 1, 1)` copies `'a'` as written but `'b'` as intended |
| `Lex.LexCompare` | sequence.h:131-147 | the three-way comparison returns only -1, 0 or 1, and 0 only for equal lengths |
| `SequenceView.Sequence.Compare` | sequence.h:131-147 | the loop over the common prefix, with the length tie-break, returns exactly `LexCompare` of the two windows |
| `SequenceView.Sequence.CompareAsWritten` | sequence.h:131-147 | as written, with loop bound `i < v.size()`: the result is the comparison of the first `v.size()` buffer elements from this view's start with `v`, ties broken by length; when this view is at least as long as `v`, it equals the intended comparison; it is zero exactly when the contents are equal |
| `Lex.OverReadCompareZeroIff` | sequence.h:133-146 | the over-reading comparison, with its length tie-break, is zero exactly for equal sequences |
| `SequenceView.CompareOverReadExample` | sequence.h:133-146 | the view "a" over the buffer "az" compared with "ab" gives 1 as written and -1 as intended |
| `Lex.LexCompareZeroIff` | sequence.h:131-147 | compare is 0 iff the two windows have the same length and equal elements |
| `Lex.LexCompareReflexive` | sequence.h:131-147 | `compare(self) == 0` |
| `Lex.LexCompareAntisymmetric` | sequence.h:131-147 | swapping the operands negates the result |
| `Lex.LexCompareFirstDifference` | sequence.h:133-141 | at the first differing index the result is -1 if this view's element is `lt`, and 1 otherwise |
| `Lex.LexComparePrefix` | sequence.h:142-146 | a proper prefix compares less (-1) |
| `Lex.LexCompareNegativeIff` | sequence.h:131-147 | compare is negative iff the left operand sorts strictly before the right by the reference definition `LexLess` |
| `Lex.LexCompareTruncated` | sequence.h:133-146 | comparing only the first `v.size()` elements and then breaking ties by length gives the full comparison when the left operand is at least as long |
| `SequenceView.Sequence.Subseq` | sequence.h:149-157 | fails iff `pos >= size()`; otherwise a fresh view over the same buffer, starting `pos` elements in, of length `min(count, size()-pos)`, whose element `i` is element `pos+i` of this view; `subseq(0, n)` with `n >= size()` shows the whole view |
| `SequenceView.Sequence.MatchesAt` | sequence.h:163 | `subseq(p, v.size()).compare(v) == 0` holds exactly when `v` occurs at `p` |
| `SequenceView.Sequence.Find` | sequence.h:159-168 | for any needle except an empty one at `pos == size()`: `npos` if the needle is longer than the view or occurs at no index `>= pos`; otherwise the smallest index `>= pos` at which it occurs |
| `SequenceView.Sequence.RFind` | sequence.h:170-184 | for any needle except an empty one at `pos >= size()`: `npos` if the needle is longer than the view or occurs at no index `<= min(pos, size()-v.size())`; otherwise the largest such index |
| `SequenceView.Equal` | sequence.h:215-218 | `==` holds iff the contents are equal |
| `SequenceView.NotEqual` | sequence.h:220-223 | `!=` holds iff the contents differ |
| `SequenceView.Less` | sequence.h:225-228 | `<` holds iff the left sorts strictly before the right (`LexLess`) |
| `SequenceView.Greater` | sequence.h:230-233 | `>` holds iff the right sorts strictly before the left |
| `SequenceView.GreaterEqual` | sequence.h:235-238 | `>=` holds iff the left does not sort strictly before the right, i.e. the right sorts before it or they are equal |
| `SequenceView.LessEqual` | sequence.h:240-243 | as intended, `<=` holds iff the left sorts strictly before the right or they are equal |
| `SequenceView.LessEqualAsWritten` | sequence.h:240-243 | as written, `<=` holds iff the contents differ |
| `SequenceView.LessEqualExample` | sequence.h:240-243 | `"a" <= "a"` is false as written and true as intended |
| `SequenceView.Hash` | sequence.h:245-256 | the hash is the sum of the elements modulo 2^64 |
| `Lex.SumAppend` | sequence.h:248-254 | the sum of a concatenation is the sum of the sums |
| `Lex.SumSwapHalves` | sequence.h:248-254 | the sum ignores order, so the hash of `a+b` equals that of `b+a` |
| `Scenarios.FindWorld` | sequence.h:159-168 | `"hello world".find("world")` is 6 |
| `Scenarios.RFindAbc` | sequence.h:170-184 | `"abcabc".rfind("abc")` is 3 |
| `Scenarios.EmptyNeedle` | sequence.h:159-184 | `"ab".find("", 1)` and `"ab".rfind("", 1)` are both 1 |
| `Scenarios.SubseqHello` | sequence.h:149-157 | `"hello world".subseq(0, 5)` compares equal to `"hello"` |
| `Scenarios.OutOfRangeCases` | sequence.h:73-77 | `"hello".at(10)` and `"".subseq(0)` are both out of range |
| `Scenarios.CopyAb` | sequence.h:120-129 | `"ab".copy(dest, 10)` returns 2 and `dest` starts with "ab" |
| `Scenarios.HashCollision` | sequence.h:245-256 | "ab" and "ba" have the same hash |
| `Scenarios.NarrowToEmpty` | sequence.h:94-109 | `remove_prefix(n)` followed by `remove_suffix(size())` always leaves an empty view |

## Left out

- `begin`, `end`, `rbegin`, `rend` and `std::reverse_iterator` (sequence.h:52-67) are left out. They are pointer and adaptor plumbing; the model uses indices into the window instead.
- `copy_construct` (sequence.h:209-212) is left out. It is private, never called, and a thin wrapper over `memcpy`.
- `strlen` is not modelled as a call. `SeqTraits.Length` is the index of the first NUL in a buffer that contains one. The null-pointer case of the `const T*` constructor is left out.
- The element type is fixed to `char` with `seq_traits`. That is the only policy the source defines.
- Characters are non-negative code points, so a signed `char` with a negative value is not modelled. `std::hash` would add such a value as a wrapped-around `size_t`. `lt` (sequence.h:17-19) would also put the bytes 0x80-0xFF below ASCII (`'\x80' < 'a'`), so `Compare` and the relational operators would order those bytes differently from the model.
- The buffer's lifetime and concurrent writes to it are caller obligations. They appear only as the invariant `Valid()`.
- Out-of-range `operator[]`, `front` and `back`, and an empty needle in `find`/`rfind` (`std::terminate`), are modelled as preconditions only.
- SequenceView.Sequence.Find: `pos + v.size()` (sequence.h:162) is computed in unbounded naturals. The `size_t` wrap-around for a `pos` near `npos` is not reproduced.
- SequenceView.Sequence.CopyAsWritten: `dest` is assumed disjoint from the viewed buffer, and a view is a snapshot of its buffer. The source allows a `dest` that overlaps the window. Its forward copy (sequence.h:125-127) would then re-read cells it has already overwritten and change the view's own contents. The model does not capture that.
- SequenceView.Sequence.Copy: the same as for `CopyAsWritten`. `dest` is assumed disjoint from the viewed buffer, so a `dest` that overlaps the window and the writes through the view's own memory are not modelled.
- SequenceView.Sequence.CompareAsWritten: reading past the end of the buffer is undefined behaviour. The model requires the over-read to stay inside the modelled buffer.
- The defaulted fallthrough in `compare`, where neither `lt(a, b)` nor `lt(b, a)` holds for unequal elements (sequence.h:136-140), cannot happen for a strict total order on characters. The model proves it unreachable rather than modelling it.

## Findings

| source | as written | input that shows it | evidently intended | confidence | as-written member | corrected member |
|---|---|---|---|---|---|---|
| sequence.h:124-126 | `copy` checks `pos` but then copies `min(size(), count)` elements from the window's start, ignoring `pos` | `"ab".copy(dest, 1, 1)` copies `'a'` | copy `min(size()-pos, count)` elements starting at `pos`, giving `'b'` | high; not executed | `SequenceView.Sequence.CopyAsWritten`, `SequenceView.CopyIgnoresPosExample` | `SequenceView.Sequence.Copy` |
| sequence.h:133 | the comma operator leaves only `i < v.size()` as the loop bound, so a shorter view is read past its window | the view "a" over the buffer "az", compared with "ab", gives 1 | bound `min(size(), v.size())`, so a proper prefix compares less: -1 | high; not executed | `SequenceView.Sequence.CompareAsWritten`, `SequenceView.CompareOverReadExample` | `SequenceView.Sequence.Compare` |
| sequence.h:242 | `operator<=` returns the three-way result converted to `bool`, i.e. "contents differ" | `"a" <= "a"` is false (and `"b" <= "a"` is true) | `compare(rhs) <= 0` | high; not executed | `SequenceView.LessEqualAsWritten`, `SequenceView.LessEqualExample` | `SequenceView.LessEqual` |
