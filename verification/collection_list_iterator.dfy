/** collection/list/list_iterator.go: the cursor iterator of the error-less
    list package, the same algorithm as backend/list/list_iterator.go over
    the collection list and its error values. */
module CollectionListIterator {

  import opened Wrappers
  import Errors
  import SeqSpec
  import C = CollectionSliceList
  import BI = BackendListIterator

  /** `cursor` indexes the next element; `lastRet` is the index Next last
      returned, or -1. */
  type ListIterator = BI.Itr

  /** Iterator(): cursor 0, nothing returned yet. */
  function Iterator<T>(l: C.SliceList<T>): (it: ListIterator)
    requires C.Valid(l)
    ensures BI.ItrValid(it, l) && it.cursor == 0 && it.lastRet == -1
  {
    BI.Itr(0, -1)
  }

  /** HasNext: true iff the cursor differs from the list's size. */
  function HasNext<T>(it: ListIterator, l: C.SliceList<T>): (r: bool)
    ensures r <==> it.cursor != l.size
  {
    l.size != it.cursor
  }

  /** Next: the element under the cursor, recorded in lastRet, and the cursor
      advances; past the end NoSuchElement and the cursor stays. */
  function Next<T>(it: ListIterator, l: C.SliceList<T>): (r: (ListIterator, Result<T, Errors.Error>))
    requires C.Valid(l)
    ensures it.cursor >= l.size ==> r == (it, Err(Errors.NoSuchElement))
    ensures 0 <= it.cursor < l.size ==> r == (BI.Itr(it.cursor + 1, it.cursor), Ok(l.data[it.cursor]))
  {
    if it.cursor >= l.size then (it, Err(Errors.NoSuchElement))
    else
      var lastRet := it.cursor;
      (BI.Itr(it.cursor + 1, lastRet), C.Get(l, lastRet))
  }

  /** Remove: IllegalState without a pending lastRet; otherwise deletes
      element lastRet, rewinds the cursor to it and clears lastRet. */
  function Remove<T>(it: ListIterator, l: C.SliceList<T>): (r: (ListIterator, C.SliceList<T>, Outcome<Errors.Error>))
    requires C.Valid(l)
    ensures C.Valid(r.1)
    ensures it.lastRet < 0 ==> r == (it, l, Fail(Errors.IllegalState))
    ensures 0 <= it.lastRet < l.size ==>
              r.2 == Pass && r.0 == BI.Itr(it.lastRet, -1) && r.1.data == SeqSpec.RemoveAt(l.data, it.lastRet)
    ensures it.lastRet >= l.size ==> r == (it, l, Fail(Errors.IndexOutOfBound))
  {
    if it.lastRet < 0 then (it, l, Fail(Errors.IllegalState))
    else
      var (l', removed) := C.RemoveIndex(l, it.lastRet);
      if removed.Ok? then (BI.Itr(it.lastRet, -1), l', Pass)
      else (it, l', Fail(removed.error))
  }

  /** Both packages' iterators step identically, so every walk property of
      the backend iterator (in-order traversal, nothing skipped after a
      Remove, a second Remove failing) holds here too. */
  lemma StepsAsBackend<T>(it: ListIterator, l: C.SliceList<T>)
    requires C.Valid(l)
    ensures Next(it, l) == BI.Next(it, l)
    ensures Remove(it, l) == BI.Remove(it, l)
    ensures HasNext(it, l) == BI.HasNext(it, l)
  {
  }

  /** A second Remove right after a successful one fails with IllegalState. */
  lemma SecondRemoveFails<T>(it: ListIterator, l: C.SliceList<T>)
    requires C.Valid(l) && 0 <= it.lastRet < l.size
    ensures var (it1, l1, _) := Remove(it, l);
            Remove(it1, l1) == (it1, l1, Fail(Errors.IllegalState))
  {
  }
}
