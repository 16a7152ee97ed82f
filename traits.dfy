/** The character policy of the view: element equality, element ordering,
    single-element assignment and the length of a NUL-terminated buffer. */
module SeqTraits {

  /** The largest value of std::size_t; the view uses it as "not found". */
  const NPOS: nat := 0xFFFF_FFFF_FFFF_FFFF

  /** A std::size_t: a natural number no larger than NPOS. */
  type Size = n: nat | n <= NPOS

  /** Element equality: exactly the pairs that Lt leaves unordered. */
  function Eq(a: char, b: char): (r: bool)
    ensures r <==> !Lt(a, b) && !Lt(b, a)
  {
    a == b
  }

  /** Element ordering: the order of the character codes. */
  function Lt(a: char, b: char): (r: bool)
    ensures r <==> (a as int) < (b as int)
  {
    a < b
  }

  /** Lt is a strict total order whose incomparable elements are exactly the
      Eq-equal ones, which is what a lexicographic comparison built on the
      pair needs. */
  lemma LtIsStrictTotalOrder(a: char, b: char, c: char)
    ensures !Lt(a, a)
    ensures Lt(a, b) && Lt(b, c) ==> Lt(a, c)
    ensures Eq(a, b) || Lt(a, b) || Lt(b, a)
    ensures Eq(a, b) ==> !Lt(a, b) && !Lt(b, a)
  {
  }

  /** Single-element assignment through a reference, here the cell `i` of a
      caller-owned array. */
  method Assign(r: array<char>, i: nat, a: char)
    requires i < r.Length
    modifies r
    ensures r[i] == a
    ensures forall j :: 0 <= j < r.Length && j != i ==> r[j] == old(r[j])
  {
    r[i] := a;
  }

  /** The number of elements before the first NUL character. */
  function Length(s: seq<char>): (n: nat)
    requires '\0' in s
    ensures n < |s| && s[n] == '\0'
    ensures forall i :: 0 <= i < n ==> s[i] != '\0'
  {
    if s[0] == '\0' then 0 else 1 + Length(s[1..])
  }
}
