/** backend/list/slice_list.go: a list stored in a Go slice.

    The list is a value: `size` and the slice `data`, as in the Go struct.
    Every operation returns the new list (and whatever the Go method
    returns). Another collection `c` passed in is its element sequence
    (`c.Slice()`), so `c.Size()` is `|c|` and `c.Contains(x)` is `x in c`;
    where the Go code first checks whether `c` is the receiver itself, the
    flag `same` says so. Go's `==` on elements is `T(==)`. */
module BackendSliceList {

  import opened Wrappers
  import Errors
  import Fmt
  import CollectionErrs
  import SeqSpec
  import GoSlices

  const DefaultCapacity: int := 10

  datatype SliceList<T> = SliceList(size: int, data: seq<T>)

  /** The size field counts the slice's elements; every operation keeps this. */
  predicate Valid<T>(l: SliceList<T>) {
    l.size == |l.data|
  }

  /** NewSliceListDefault: an empty list. */
  function NewSliceListDefault<T>(): (l: SliceList<T>)
    ensures Valid(l) && l.data == []
  {
    SliceList(0, [])
  }

  /** NewSliceList: an empty list together with the capacity reserved for
      it; a negative request falls back to DefaultCapacity. */
  function NewSliceList<T>(initialCapacity: int): (r: (SliceList<T>, nat))
    ensures Valid(r.0) && r.0.data == []
    ensures initialCapacity >= 0 ==> r.1 == initialCapacity
    ensures initialCapacity < 0 ==> r.1 == DefaultCapacity
  {
    var capacity := if initialCapacity < 0 then DefaultCapacity else initialCapacity;
    (SliceList(0, []), capacity)
  }

  /** NewSliceListWithCollection: a list holding c's elements in order. */
  function NewSliceListWithCollection<T>(c: seq<T>): (l: SliceList<T>)
    ensures Valid(l) && l.data == c
  {
    var size := |c|;
    if size != 0 then SliceList(|c|, c) else NewSliceListDefault()
  }

  /** Slice: a fresh copy of the first `size` elements. */
  function Slice<T>(l: SliceList<T>): (r: seq<T>)
    requires Valid(l)
    ensures |r| == l.size
    ensures forall i :: 0 <= i < |r| ==> r[i] == l.data[i]
  {
    GoSlices.CopyAt(l.data, 0, l.data)
  }

  function Size<T>(l: SliceList<T>): (r: int)
    ensures Valid(l) ==> r == |l.data|
  {
    l.size
  }

  /** IsEmpty: size 0, which for a valid list means no elements. */
  function IsEmpty<T>(l: SliceList<T>): (r: bool)
    ensures r <==> l.size == 0
    ensures Valid(l) ==> (r <==> l.data == [])
  {
    l.size == 0
  }

  /** Index: the first position holding e, or -1. */
  method Index<T(==)>(l: SliceList<T>, e: T) returns (index: int)
    requires Valid(l)
    ensures index == SeqSpec.IndexOf(l.data, e)
  {
    var size := l.size;
    var i := 0;
    while i < size
      invariant 0 <= i <= size
      invariant forall j :: 0 <= j < i ==> l.data[j] != e
    {
      if l.data[i] == e {
        return i;
      }
      i := i + 1;
    }
    return -1;
  }

  /** LastIndex: the last position holding e, or -1. */
  method LastIndex<T(==)>(l: SliceList<T>, e: T) returns (index: int)
    requires Valid(l)
    ensures index == SeqSpec.LastIndexOf(l.data, e)
  {
    var size := l.size;
    var i := size - 1;
    while i >= 0
      invariant -1 <= i < size
      invariant forall j :: i < j < size ==> l.data[j] != e
    {
      if l.data[i] == e {
        return i;
      }
      i := i - 1;
    }
    return -1;
  }

  /** Contains: Index finds e. */
  method Contains<T(==)>(l: SliceList<T>, e: T) returns (r: bool)
    requires Valid(l)
    ensures r <==> e in l.data
  {
    var index := Index(l, e);
    r := index >= 0;
  }

  /** Add: appends e (whatever it is) and always reports a change. */
  function Add<T>(l: SliceList<T>, e: T): (r: (SliceList<T>, bool))
    requires Valid(l)
    ensures Valid(r.0) && r.0.data == l.data + [e] && r.1
  {
    (SliceList(l.size + 1, l.data + [e]), true)
  }

  /** fastRemove: the slice without position index. */
  function FastRemove<T>(data: seq<T>, index: int): (r: seq<T>)
    requires 0 <= index < |data|
    ensures r == SeqSpec.RemoveAt(data, index)
  {
    data[..index] + data[index + 1..]
  }

  /** Remove: deletes the first element equal to e and reports whether there was one. */
  method Remove<T(==)>(l: SliceList<T>, e: T) returns (l': SliceList<T>, removed: bool)
    requires Valid(l)
    ensures Valid(l')
    ensures removed <==> e in l.data
    ensures l'.data == SeqSpec.RemoveFirstOccurrence(l.data, e)
  {
    var i := 0;
    while i < l.size
      invariant 0 <= i <= l.size
      invariant forall j :: 0 <= j < i ==> l.data[j] != e
    {
      if l.data[i] == e {
        assert SeqSpec.IndexOf(l.data, e) == i;
        return SliceList(l.size - 1, FastRemove(l.data, i)), true;
      }
      i := i + 1;
    }
    return l, false;
  }

  /** ContainsAll: every element of c is in the list (at once when c is the list itself). */
  method ContainsAll<T(==)>(l: SliceList<T>, c: seq<T>, same: bool) returns (r: bool)
    requires Valid(l)
    requires same ==> c == l.data
    ensures r <==> forall x :: x in c ==> x in l.data
  {
    if same {
      return true;
    }
    var k := 0;
    while k < |c|
      invariant 0 <= k <= |c|
      invariant forall j :: 0 <= j < k ==> c[j] in l.data
    {
      var contains := Contains(l, c[k]);
      if !contains {
        return false;
      }
      k := k + 1;
    }
    return true;
  }

  /** AddAll: appends c's elements in order; reports a change iff c is non-empty. */
  function AddAll<T>(l: SliceList<T>, c: seq<T>): (r: (SliceList<T>, bool))
    requires Valid(l)
    ensures Valid(r.0) && r.0.data == l.data + c
    ensures r.1 <==> |c| != 0
  {
    var b := |c| != 0;
    if b then (SliceList(l.size + |c|, l.data + c), b)
    else
      assert l.data + c == l.data;
      (l, b)
  }

  /** The in-place compaction of batchRemove: the survivors in order, and
      how many there are. */
  method Compact<T(==)>(l: SliceList<T>, c: seq<T>, complement: bool) returns (data: seq<T>, w: int)
    requires Valid(l)
    ensures 0 <= w <= |data| == l.size
    ensures data[..w] == SeqSpec.Keep(l.data, c, complement)
  {
    data := l.data;
    var size := l.size;
    var r := 0;
    w := 0;
    while r < size
      invariant 0 <= w <= r <= size == |data|
      invariant data[..w] == SeqSpec.Keep(l.data[..r], c, complement)
      invariant forall j :: r <= j < size ==> data[j] == l.data[j]
    {
      ghost var kept := data[..w];
      var x := data[r];
      SeqSpec.KeepStep(l.data, c, complement, r);
      if (x in c) == complement {
        data := data[w := x];
        assert data[..w + 1] == kept + [x];
        w := w + 1;
      }
      r := r + 1;
    }
    assert l.data[..r] == l.data;
  }

  /** batchRemove as written: keeps, in order, the elements whose membership
      in c equals complement, and reports a change whenever the list was
      non-empty, even when nothing was dropped. */
  method BatchRemove<T(==)>(l: SliceList<T>, c: seq<T>, complement: bool) returns (l': SliceList<T>, modified: bool)
    requires Valid(l)
    ensures Valid(l')
    ensures l'.data == SeqSpec.Keep(l.data, c, complement)
    ensures modified <==> l.size != 0
  {
    var data, w := Compact(l, c, complement);
    var r := l.size;
    if r != 0 {
      l' := SliceList(w, data[..w]);
      modified := true;
    } else {
      l' := l;
      modified := false;
    }
  }

  /** batchRemove as its contract intends: the same compaction, reporting a
      change exactly when some element was dropped. */
  method BatchRemoveIntended<T(==)>(l: SliceList<T>, c: seq<T>, complement: bool) returns (l': SliceList<T>, modified: bool)
    requires Valid(l)
    ensures Valid(l')
    ensures l'.data == SeqSpec.Keep(l.data, c, complement)
    ensures modified <==> exists i :: 0 <= i < |l.data| && (l.data[i] in c) != complement
  {
    var data, w := Compact(l, c, complement);
    SeqSpec.KeepAll(l.data, c, complement);
    if w != l.size {
      l' := SliceList(w, data[..w]);
      modified := true;
    } else {
      SeqSpec.KeepSameLength(l.data, c, complement);
      l' := l;
      modified := false;
    }
  }

  /** Retaining everything of a non-empty list still reports a change as written. */
  method BatchRemoveReportsUnchanged() returns (modified: bool, intended: bool)
    ensures modified && !intended
  {
    var l := SliceList(1, [7]);
    var l1: SliceList<int>;
    l1, modified := BatchRemove(l, [7], true);
    var l2: SliceList<int>;
    l2, intended := BatchRemoveIntended(l, [7], true);
  }

  /** RemoveAll: drops every element contained in c, keeping the order of the rest. */
  method RemoveAll<T(==)>(l: SliceList<T>, c: seq<T>) returns (l': SliceList<T>, modified: bool)
    requires Valid(l)
    ensures Valid(l')
    ensures l'.data == SeqSpec.Keep(l.data, c, false)
    ensures forall x :: x in l'.data <==> x in l.data && x !in c
    ensures modified <==> l.size != 0
  {
    l', modified := BatchRemove(l, c, false);
    SeqSpec.KeepMembers(l.data, c, false);
  }

  /** RetainAll: keeps only the elements contained in c, in order. */
  method RetainAll<T(==)>(l: SliceList<T>, c: seq<T>) returns (l': SliceList<T>, modified: bool)
    requires Valid(l)
    ensures Valid(l')
    ensures l'.data == SeqSpec.Keep(l.data, c, true)
    ensures forall x :: x in l'.data <==> x in l.data && x in c
    ensures modified <==> l.size != 0
  {
    l', modified := BatchRemove(l, c, true);
    SeqSpec.KeepMembers(l.data, c, true);
  }

  /** Clear: no elements. */
  function Clear<T>(l: SliceList<T>): (r: SliceList<T>)
    ensures Valid(r) && r.data == [] && IsEmpty(r)
  {
    SliceList(0, [])
  }

  /** Equals: true for the list itself; otherwise walks both iterators and is
      true iff they yield equal elements pairwise and run out together. */
  method Equals<T(==)>(l: SliceList<T>, c: seq<T>, same: bool) returns (b: bool)
    requires Valid(l)
    requires same ==> c == l.data
    ensures b <==> l.data == c
  {
    if same {
      return true;
    }
    var i := 0;
    while i < l.size && i < |c|
      invariant 0 <= i <= l.size && i <= |c|
      invariant l.data[..i] == c[..i]
    {
      if l.data[i] != c[i] {
        return false;
      }
      assert l.data[..i + 1] == l.data[..i] + [l.data[i]];
      assert c[..i + 1] == c[..i] + [c[i]];
      i := i + 1;
    }
    b := !(i < l.size || i < |c|);
    if b {
      assert l.data == l.data[..i] && c == c[..i];
    }
  }

  /** rangeCheckForAdd: an insertion index must lie in [0, size]. */
  function RangeCheckForAdd<T>(l: SliceList<T>, index: int): (r: Outcome<Errors.Error>)
    ensures r.Pass? <==> 0 <= index <= l.size
    ensures r.Fail? ==> r.error == Errors.IndexOutOfBound
  {
    if index > l.size || index < 0 then Fail(Errors.IndexOutOfBound) else Pass
  }

  /** AddAllIndex: splices c's elements in at index, shifting the rest right;
      an index outside [0, size] fails and changes nothing. */
  function AddAllIndex<T>(l: SliceList<T>, index: int, c: seq<T>): (r: (SliceList<T>, Outcome<Errors.Error>))
    requires Valid(l)
    ensures Valid(r.0)
    ensures !(0 <= index <= l.size) ==> r == (l, Fail(Errors.IndexOutOfBound))
    ensures 0 <= index <= l.size ==> r.1 == Pass && r.0.data == SeqSpec.InsertAllAt(l.data, index, c)
  {
    var err := RangeCheckForAdd(l, index);
    if err.Fail? then (l, err)
    else if |c| != 0 then
      var data1 := l.data + c;
      var data2 := GoSlices.CopyAt(data1, index + |c|, data1[index..]);
      var data3 := GoSlices.CopyAt(data2, index, c);
      assert data3 == SeqSpec.InsertAllAt(l.data, index, c) by {
        var want := SeqSpec.InsertAllAt(l.data, index, c);
        forall j | 0 <= j < |data3| ensures data3[j] == want[j] {
          if j < index {
          } else if j < index + |c| {
          } else {
            assert data3[j] == data2[j] == data1[index..][j - index - |c|];
          }
        }
      }
      (SliceList(l.size + |c|, data3), Pass)
    else
      assert SeqSpec.InsertAllAt(l.data, index, c) == l.data;
      (l, Pass)
  }

  /** Get: the element at index, or IndexOutOfBound outside [0, size). */
  function Get<T>(l: SliceList<T>, index: int): (r: Result<T, Errors.Error>)
    requires Valid(l)
    ensures 0 <= index < |l.data| ==> r == Ok(l.data[index])
    ensures !(0 <= index < |l.data|) ==> r == Err(Errors.IndexOutOfBound)
  {
    var size := l.size;
    if index >= size || index < 0 then Err(Errors.IndexOutOfBound) else Ok(l.data[index])
  }

  /** Set: replaces the element at index and leaves every other position
      alone; only index >= size is rejected (a negative index panics in Go). */
  function Set<T>(l: SliceList<T>, index: int, e: T): (r: (SliceList<T>, Outcome<Errors.Error>))
    requires Valid(l)
    requires index >= 0
    ensures Valid(r.0)
    ensures index >= l.size ==> r == (l, Fail(Errors.IndexOutOfBound))
    ensures index < l.size ==>
              && r.1 == Pass
              && |r.0.data| == |l.data|
              && r.0.data[index] == e
              && forall j :: 0 <= j < |l.data| && j != index ==> r.0.data[j] == l.data[j]
  {
    var size := l.size;
    if index >= size then (l, Fail(Errors.IndexOutOfBound))
    else (SliceList(l.size, l.data[index := e]), Pass)
  }

  /** AddIndex: inserts e at index, shifting the rest right; an index outside
      [0, size] fails and changes nothing. */
  function AddIndex<T>(l: SliceList<T>, index: int, e: T): (r: (SliceList<T>, Outcome<Errors.Error>))
    requires Valid(l)
    ensures Valid(r.0)
    ensures !(0 <= index <= l.size) ==> r == (l, Fail(Errors.IndexOutOfBound))
    ensures 0 <= index <= l.size ==> r.1 == Pass && r.0.data == SeqSpec.InsertAt(l.data, index, e)
  {
    var err := RangeCheckForAdd(l, index);
    if err.Fail? then (l, err)
    else
      var data1 := l.data + [e];
      var data2 := GoSlices.CopyAt(data1, index + 1, data1[index..]);
      var data3 := data2[index := e];
      assert data3 == SeqSpec.InsertAt(l.data, index, e) by {
        var want := SeqSpec.InsertAt(l.data, index, e);
        forall j | 0 <= j < |data3| ensures data3[j] == want[j] {
          if j > index {
            assert data3[j] == data2[j] == data1[index..][j - index - 1];
          }
        }
      }
      (SliceList(l.size + 1, data3), Pass)
  }

  /** RemoveIndex: removes and returns the element at index, shifting the rest
      left; only index >= size is rejected (a negative index panics in Go). */
  function RemoveIndex<T>(l: SliceList<T>, index: int): (r: (SliceList<T>, Result<T, Errors.Error>))
    requires Valid(l)
    requires index >= 0
    ensures Valid(r.0)
    ensures index >= l.size ==> r == (l, Err(Errors.IndexOutOfBound))
    ensures index < l.size ==> r.1 == Ok(l.data[index]) && r.0.data == SeqSpec.RemoveAt(l.data, index)
  {
    if index >= l.size then (l, Err(Errors.IndexOutOfBound))
    else
      var element := l.data[index];
      (SliceList(l.size - 1, FastRemove(l.data, index)), Ok(element))
  }

  /** The error SubList reports: an index-out-of-bounds value with a detail.
      The backend errors package is not part of this model; its text is taken
      to be the collection errors format. */
  function OutOfBounds(detail: string): Errors.Error {
    Errors.OutOfBoundMessage(CollectionErrs.Error(CollectionErrs.NewIndexOutOfBoundsError(detail)))
  }

  /** subListRangeCheck: from must be >= 0, to <= size, and from <= to,
      checked in that order. */
  function SubListRangeCheck<T>(l: SliceList<T>, fromIndex: int, toIndex: int): (r: Outcome<Errors.Error>)
    ensures r.Pass? <==> 0 <= fromIndex <= toIndex <= l.size
    ensures fromIndex < 0 ==> r == Fail(OutOfBounds("fromIndex = " + Fmt.Decimal(fromIndex)))
    ensures 0 <= fromIndex && toIndex > l.size ==> r == Fail(OutOfBounds("toIndex = " + Fmt.Decimal(toIndex)))
    ensures 0 <= fromIndex && toIndex <= l.size && fromIndex > toIndex ==>
              r == Fail(OutOfBounds("fromIndex(" + Fmt.Decimal(fromIndex) + ") > toIndex(" + Fmt.Decimal(toIndex) + ")"))
  {
    if fromIndex < 0 then Fail(OutOfBounds("fromIndex = " + Fmt.Decimal(fromIndex)))
    else if toIndex > l.size then Fail(OutOfBounds("toIndex = " + Fmt.Decimal(toIndex)))
    else if fromIndex > toIndex then
      Fail(OutOfBounds("fromIndex(" + Fmt.Decimal(fromIndex) + ") > toIndex(" + Fmt.Decimal(toIndex) + ")"))
    else Pass
  }

  /** SubList: the elements [from, to) as a list of size to - from. */
  function SubList<T>(l: SliceList<T>, fromIndex: int, toIndex: int): (r: Result<SliceList<T>, Errors.Error>)
    requires Valid(l)
    ensures r.Ok? <==> 0 <= fromIndex <= toIndex <= l.size
    ensures r.Ok? ==> Valid(r.value) && r.value.data == l.data[fromIndex..toIndex]
    ensures r.Err? ==> r.error == SubListRangeCheck(l, fromIndex, toIndex).error
  {
    var err := SubListRangeCheck(l, fromIndex, toIndex);
    if err.Fail? then Err(err.error)
    else Ok(SliceList(toIndex - fromIndex, l.data[fromIndex..toIndex]))
  }

  /** The detail text of a SubList error reads back as the offending index. */
  lemma SubListErrorNamesIndex<T>(l: SliceList<T>, fromIndex: int, toIndex: int)
    requires Valid(l) && fromIndex < 0
    ensures var e := SubList(l, fromIndex, toIndex).error;
            e.OutOfBoundMessage? && CollectionErrs.DetailOf(e.text) == Some("fromIndex = " + Fmt.Decimal(fromIndex))
  {
  }

  /** AddIndex and RemoveIndex at the same position undo each other. */
  lemma AddIndexRemoveIndex<T>(l: SliceList<T>, index: int, e: T)
    requires Valid(l) && 0 <= index <= l.size
    ensures RemoveIndex(AddIndex(l, index, e).0, index) == (l, Ok(e))
  {
    SeqSpec.InsertRemoveRoundTrip(l.data, index, e);
  }

  /** Add is AddIndex at the end. */
  lemma AddIsAddIndexAtEnd<T>(l: SliceList<T>, e: T)
    requires Valid(l)
    ensures Add(l, e).0 == AddIndex(l, l.size, e).0
  {
  }
}
