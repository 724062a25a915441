/** collection/list/slice_list.go: the error-less twin of
    backend/list/slice_list.go.

    The algorithms are line for line those of the backend list, so each
    operation here runs the backend model and keeps only what this Go
    signature returns: Add, Remove, AddAll, RemoveAll, RetainAll and
    Contains return a bare bool, Clear nothing, and the failures are the
    package's own IndexOutOfBound value and IndexOutOfBoundsException. */
module CollectionSliceList {

  import opened Wrappers
  import Errors
  import Fmt
  import CollectionListErr
  import SeqSpec
  import B = BackendSliceList

  type SliceList<T> = B.SliceList<T>

  predicate Valid<T>(l: SliceList<T>) {
    B.Valid(l)
  }

  /** NewSliceListDefault: an empty list (no capacity reserved here). */
  function NewSliceListDefault<T>(): (l: SliceList<T>)
    ensures Valid(l) && l.data == []
  {
    B.SliceList(0, [])
  }

  /** NewSliceListWithCollection: a list holding c's elements in order. */
  function NewSliceListWithCollection<T>(c: seq<T>): (l: SliceList<T>)
    ensures Valid(l) && l.data == c
  {
    B.NewSliceListWithCollection(c)
  }

  /** NewSliceList: an empty list; a negative capacity falls back to 10. */
  function NewSliceList<T>(initialCapacity: int): (r: (SliceList<T>, nat))
    ensures Valid(r.0) && r.0.data == []
    ensures initialCapacity >= 0 ==> r.1 == initialCapacity
    ensures initialCapacity < 0 ==> r.1 == 10
  {
    B.NewSliceList(initialCapacity)
  }

  /** Slice: a copy of exactly the first `size` elements. */
  function Slice<T>(l: SliceList<T>): (r: seq<T>)
    requires Valid(l)
    ensures r == l.data
  {
    B.Slice(l)
  }

  /** IsEmpty holds iff the size is 0. */
  function IsEmpty<T>(l: SliceList<T>): (r: bool)
    ensures r <==> l.size == 0
    ensures Valid(l) ==> (r <==> l.data == [])
  {
    B.IsEmpty(l)
  }

  method Contains<T(==)>(l: SliceList<T>, e: T) returns (r: bool)
    requires Valid(l)
    ensures r <==> e in l.data
  {
    r := B.Contains(l, e);
  }

  /** Add: appends any element and reports true. */
  function Add<T>(l: SliceList<T>, e: T): (r: (SliceList<T>, bool))
    requires Valid(l)
    ensures Valid(r.0) && r.0.data == l.data + [e] && r.1
  {
    B.Add(l, e)
  }

  /** Remove: deletes the first equal element, or reports false with no change. */
  method Remove<T(==)>(l: SliceList<T>, e: T) returns (l': SliceList<T>, b: bool)
    requires Valid(l)
    ensures Valid(l')
    ensures b <==> e in l.data
    ensures b ==> l'.data == SeqSpec.RemoveAt(l.data, SeqSpec.IndexOf(l.data, e))
    ensures !b ==> l' == l
  {
    l', b := B.Remove(l, e);
  }

  method ContainsAll<T(==)>(l: SliceList<T>, c: seq<T>, same: bool) returns (r: bool)
    requires Valid(l)
    requires same ==> c == l.data
    ensures r <==> forall x :: x in c ==> x in l.data
  {
    r := B.ContainsAll(l, c, same);
  }

  /** AddAll: false and no change for an empty c; otherwise c's elements are
      appended in order (also when c is this list, read before appending). */
  function AddAll<T>(l: SliceList<T>, c: seq<T>): (r: (SliceList<T>, bool))
    requires Valid(l)
    ensures r.1 <==> |c| != 0
    ensures !r.1 ==> r.0 == l
    ensures Valid(r.0) && r.0.data == l.data + c
  {
    B.AddAll(l, c)
  }

  /** RemoveAll: drops the elements contained in c, preserving order. */
  method RemoveAll<T(==)>(l: SliceList<T>, c: seq<T>) returns (l': SliceList<T>, modified: bool)
    requires Valid(l)
    ensures Valid(l')
    ensures l'.data == SeqSpec.Keep(l.data, c, false)
    ensures forall x :: x in l'.data <==> x in l.data && x !in c
    ensures modified <==> l.size != 0
  {
    l', modified := B.RemoveAll(l, c);
  }

  /** RetainAll: keeps only the elements contained in c, preserving order. */
  method RetainAll<T(==)>(l: SliceList<T>, c: seq<T>) returns (l': SliceList<T>, modified: bool)
    requires Valid(l)
    ensures Valid(l')
    ensures l'.data == SeqSpec.Keep(l.data, c, true)
    ensures forall x :: x in l'.data <==> x in l.data && x in c
    ensures modified <==> l.size != 0
  {
    l', modified := B.RetainAll(l, c);
  }

  function Clear<T>(l: SliceList<T>): (r: SliceList<T>)
    ensures Valid(r) && r.data == []
  {
    B.Clear(l)
  }

  method Equals<T(==)>(l: SliceList<T>, c: seq<T>, same: bool) returns (b: bool)
    requires Valid(l)
    requires same ==> c == l.data
    ensures b <==> l.data == c
  {
    b := B.Equals(l, c, same);
  }

  /** AddAllIndex: an index outside [0, size] fails with IndexOutOfBound and
      changes nothing; otherwise c is spliced in at index. */
  function AddAllIndex<T>(l: SliceList<T>, index: int, c: seq<T>): (r: (SliceList<T>, Outcome<Errors.Error>))
    requires Valid(l)
    ensures Valid(r.0)
    ensures !(0 <= index <= l.size) ==> r == (l, Fail(Errors.IndexOutOfBound))
    ensures 0 <= index <= l.size ==> r.1 == Pass && r.0.data == SeqSpec.InsertAllAt(l.data, index, c)
  {
    B.AddAllIndex(l, index, c)
  }

  /** Get: the element at index, IndexOutOfBound outside [0, size). */
  function Get<T>(l: SliceList<T>, index: int): (r: Result<T, Errors.Error>)
    requires Valid(l)
    ensures r.Ok? <==> 0 <= index < l.size
    ensures r.Ok? ==> r.value == l.data[index]
    ensures r.Err? ==> r.error == Errors.IndexOutOfBound
  {
    B.Get(l, index)
  }

  /** Set: only index >= size is rejected; a negative index panics in Go. */
  function Set<T>(l: SliceList<T>, index: int, e: T): (r: (SliceList<T>, Outcome<Errors.Error>))
    requires Valid(l)
    requires index >= 0
    ensures Valid(r.0)
    ensures index >= l.size ==> r == (l, Fail(Errors.IndexOutOfBound))
    ensures index < l.size ==> r.1 == Pass && r.0.data == l.data[index := e]
  {
    B.Set(l, index, e)
  }

  /** AddIndex: inserts at index in [0, size], else IndexOutOfBound and no change. */
  function AddIndex<T>(l: SliceList<T>, index: int, e: T): (r: (SliceList<T>, Outcome<Errors.Error>))
    requires Valid(l)
    ensures Valid(r.0)
    ensures !(0 <= index <= l.size) ==> r == (l, Fail(Errors.IndexOutOfBound))
    ensures 0 <= index <= l.size ==> r.1 == Pass && r.0.data == SeqSpec.InsertAt(l.data, index, e)
  {
    B.AddIndex(l, index, e)
  }

  /** RemoveIndex: only index >= size is rejected; a negative index panics in Go. */
  function RemoveIndex<T>(l: SliceList<T>, index: int): (r: (SliceList<T>, Result<T, Errors.Error>))
    requires Valid(l)
    requires index >= 0
    ensures Valid(r.0)
    ensures index >= l.size ==> r == (l, Err(Errors.IndexOutOfBound))
    ensures index < l.size ==> r.1 == Ok(l.data[index]) && r.0.data == SeqSpec.RemoveAt(l.data, index)
  {
    B.RemoveIndex(l, index)
  }

  method Index<T(==)>(l: SliceList<T>, e: T) returns (index: int)
    requires Valid(l)
    ensures -1 <= index < |l.data|
    ensures index >= 0 ==> l.data[index] == e && e !in l.data[..index]
    ensures index == -1 <==> e !in l.data
  {
    index := B.Index(l, e);
  }

  method LastIndex<T(==)>(l: SliceList<T>, e: T) returns (index: int)
    requires Valid(l)
    ensures -1 <= index < |l.data|
    ensures index >= 0 ==> l.data[index] == e && e !in l.data[index + 1..]
    ensures index == -1 <==> e !in l.data
  {
    index := B.LastIndex(l, e);
  }

  /** The exception SubList reports for a bad range. */
  function OutOfBounds(detail: string): Errors.Error {
    Errors.OutOfBoundMessage(CollectionListErr.Error(CollectionListErr.NewIndexOutOfBoundsException(detail)))
  }

  /** SubList: the elements [from, to) when 0 <= from <= to <= size, else an
      IndexOutOfBoundsException naming the first violated bound. */
  function SubList<T>(l: SliceList<T>, fromIndex: int, toIndex: int): (r: Result<SliceList<T>, Errors.Error>)
    requires Valid(l)
    ensures r.Ok? <==> 0 <= fromIndex <= toIndex <= l.size
    ensures r.Ok? ==> Valid(r.value) && r.value.data == l.data[fromIndex..toIndex] && r.value.size == toIndex - fromIndex
    ensures fromIndex < 0 ==> r == Err(OutOfBounds("fromIndex = " + Fmt.Decimal(fromIndex)))
    ensures 0 <= fromIndex && toIndex > l.size ==> r == Err(OutOfBounds("toIndex = " + Fmt.Decimal(toIndex)))
    ensures 0 <= fromIndex && toIndex <= l.size && fromIndex > toIndex ==>
              r == Err(OutOfBounds("fromIndex(" + Fmt.Decimal(fromIndex) + ") > toIndex(" + Fmt.Decimal(toIndex) + ")"))
  {
    if fromIndex < 0 then Err(OutOfBounds("fromIndex = " + Fmt.Decimal(fromIndex)))
    else if toIndex > l.size then Err(OutOfBounds("toIndex = " + Fmt.Decimal(toIndex)))
    else if fromIndex > toIndex then
      Err(OutOfBounds("fromIndex(" + Fmt.Decimal(fromIndex) + ") > toIndex(" + Fmt.Decimal(toIndex) + ")"))
    else Ok(B.SliceList(toIndex - fromIndex, l.data[fromIndex..toIndex]))
  }

  /** Both packages report a bad SubList range with the same text. */
  lemma SubListErrorsMatchBackend<T>(l: SliceList<T>, fromIndex: int, toIndex: int)
    requires Valid(l)
    ensures SubList(l, fromIndex, toIndex) == B.SubList(l, fromIndex, toIndex)
  {
    var r := SubList(l, fromIndex, toIndex);
    if r.Err? {
      var detail :=
        if fromIndex < 0 then "fromIndex = " + Fmt.Decimal(fromIndex)
        else if toIndex > l.size then "toIndex = " + Fmt.Decimal(toIndex)
        else "fromIndex(" + Fmt.Decimal(fromIndex) + ") > toIndex(" + Fmt.Decimal(toIndex) + ")";
      CollectionListErr.SameTextAsErrs(detail);
    }
  }
}
