/** sort/type.go: the sort.Interface adapters Len, Less and Swap of the six
    integer slice types Uint16s, Int16s, Uint32s, Int32s, Uint64s, Int64s.

    The six types have textually identical method bodies that never depend
    on the element width, so one definition over integer sequences models
    all of them; `InRange` records the width of each type. */
module SortTypes {

  datatype Width = U16 | I16 | U32 | I32 | U64 | I64

  predicate InRange(w: Width, x: int) {
    match w
    case U16 => 0 <= x < 0x1_0000
    case I16 => -0x8000 <= x < 0x8000
    case U32 => 0 <= x < 0x1_0000_0000
    case I32 => -0x8000_0000 <= x < 0x8000_0000
    case U64 => 0 <= x < 0x1_0000_0000_0000_0000
    case I64 => -0x8000_0000_0000_0000 <= x < 0x8000_0000_0000_0000
  }

  /** A slice of one of the six types: every element fits the width. */
  predicate Typed(w: Width, s: seq<int>) {
    forall i :: 0 <= i < |s| ==> InRange(w, s[i])
  }

  /** Len: the number of elements; zero exactly for the empty slice. */
  function Len(s: seq<int>): (n: int)
    ensures n == |s|
    ensures n == 0 <==> s == []
  {
    |s|
  }

  /** Less(i, j): element i is strictly smaller than element j (Go panics
      on an index outside the slice). */
  function Less(s: seq<int>, i: int, j: int): (r: bool)
    requires 0 <= i < |s| && 0 <= j < |s|
    ensures r ==> s[i] != s[j]
    ensures r <==> s[i] < s[j]
  {
    s[i] < s[j]
  }

  /** Swap(i, j): the two positions trade elements, nothing else moves, and
      the slice keeps its type and its multiset of elements. */
  function Swap(s: seq<int>, i: int, j: int): (r: seq<int>)
    requires 0 <= i < |s| && 0 <= j < |s|
    ensures |r| == |s|
    ensures r[i] == s[j] && r[j] == s[i]
    ensures forall k :: 0 <= k < |s| && k != i && k != j ==> r[k] == s[k]
    ensures multiset(r) == multiset(s)
    ensures forall w :: Typed(w, s) ==> Typed(w, r)
  {
    s[i := s[j]][j := s[i]]
  }

  /** Less is a strict weak order on positions, as sort.Sort requires:
      irreflexive, transitive, and incomparable positions hold equal values. */
  lemma LessIsStrictOrder(s: seq<int>, i: int, j: int, k: int)
    requires 0 <= i < |s| && 0 <= j < |s| && 0 <= k < |s|
    ensures !Less(s, i, i)
    ensures Less(s, i, j) && Less(s, j, k) ==> Less(s, i, k)
    ensures Less(s, i, j) ==> !Less(s, j, i)
    ensures !Less(s, i, j) && !Less(s, j, i) ==> s[i] == s[j]
  {
  }

  /** Swapping the same pair twice restores the slice. */
  lemma SwapInvolution(s: seq<int>, i: int, j: int)
    requires 0 <= i < |s| && 0 <= j < |s|
    ensures Swap(Swap(s, i, j), i, j) == s
  {
  }
}
