/** backend/list/list_iterator.go: a cursor iterator over a list.

    The iterator is its two integers; the list it walks is passed to each
    call and the new list comes back from Remove. `cursor` is the index of
    the next element and `lastRet` the index Next last returned, or -1. */
module BackendListIterator {

  import opened Wrappers
  import Errors
  import SeqSpec
  import L = BackendSliceList

  datatype Itr = Itr(cursor: int, lastRet: int)

  /** The states a walk can reach: the cursor is in range and lastRet is
      either cleared or just behind it. */
  predicate ItrValid<T>(it: Itr, l: L.SliceList<T>) {
    && 0 <= it.cursor <= l.size
    && (it.lastRet == -1 || it.lastRet == it.cursor - 1)
  }

  /** Iterator(): starts before the first element with nothing returned. */
  function Iterator<T>(l: L.SliceList<T>): (it: Itr)
    requires L.Valid(l)
    ensures ItrValid(it, l) && it.cursor == 0 && it.lastRet < 0
  {
    Itr(0, -1)
  }

  /** HasNext: the cursor has not reached the list's size. */
  function HasNext<T>(it: Itr, l: L.SliceList<T>): (r: bool)
    ensures ItrValid(it, l) && L.Valid(l) ==> (r <==> it.cursor < |l.data|)
  {
    L.Size(l) != it.cursor
  }

  /** Next: the element under the cursor, which then advances; past the end
      it fails with NoSuchElement and nothing moves. */
  function Next<T>(it: Itr, l: L.SliceList<T>): (r: (Itr, Result<T, Errors.Error>))
    requires L.Valid(l)
    ensures it.cursor >= l.size ==> r == (it, Err(Errors.NoSuchElement))
    ensures 0 <= it.cursor < l.size ==>
              r == (Itr(it.cursor + 1, it.cursor), Ok(l.data[it.cursor]))
    ensures ItrValid(it, l) ==> ItrValid(r.0, l)
  {
    if it.cursor >= L.Size(l) then (it, Err(Errors.NoSuchElement))
    else
      var lastRet := it.cursor;
      (Itr(it.cursor + 1, lastRet), L.Get(l, lastRet))
  }

  /** Remove: deletes the element Next last returned and steps the cursor back
      onto its position; without a pending Next it fails with IllegalState. */
  function Remove<T>(it: Itr, l: L.SliceList<T>): (r: (Itr, L.SliceList<T>, Outcome<Errors.Error>))
    requires L.Valid(l)
    ensures L.Valid(r.1)
    ensures it.lastRet < 0 ==> r == (it, l, Fail(Errors.IllegalState))
    ensures 0 <= it.lastRet < l.size ==>
              && r.2 == Pass
              && r.0 == Itr(it.lastRet, -1)
              && r.1.data == SeqSpec.RemoveAt(l.data, it.lastRet)
    ensures it.lastRet >= l.size ==> r == (it, l, Fail(Errors.IndexOutOfBound))
    ensures ItrValid(it, l) ==> ItrValid(r.0, r.1)
  {
    if it.lastRet < 0 then (it, l, Fail(Errors.IllegalState))
    else
      var (l', removed) := L.RemoveIndex(l, it.lastRet);
      if removed.Ok? then (Itr(it.lastRet, -1), l', Pass)
      else (it, l', Fail(removed.error))
  }

  /** The elements Next yields from it until HasNext turns false. */
  function Drain<T>(it: Itr, l: L.SliceList<T>): seq<T>
    requires L.Valid(l) && ItrValid(it, l)
    decreases l.size - it.cursor
  {
    if !HasNext(it, l) then []
    else
      var (it', e) := Next(it, l);
      [e.value] + Drain(it', l)
  }

  /** From any reachable state, the iterator yields the rest of the list in
      index order; a fresh iterator yields the whole list. */
  lemma {:induction false} DrainYieldsSuffix<T>(it: Itr, l: L.SliceList<T>)
    requires L.Valid(l) && ItrValid(it, l)
    ensures Drain(it, l) == l.data[it.cursor..]
    decreases l.size - it.cursor
  {
    if HasNext(it, l) {
      var (it', e) := Next(it, l);
      DrainYieldsSuffix(it', l);
      assert l.data[it.cursor..] == [l.data[it.cursor]] + l.data[it.cursor + 1..];
    }
  }

  lemma FreshIteratorYieldsList<T>(l: L.SliceList<T>)
    requires L.Valid(l)
    ensures Drain(Iterator(l), l) == l.data
  {
    DrainYieldsSuffix(Iterator(l), l);
  }

  /** Next then Remove deletes the element just returned without skipping
      the one after it, and a second Remove fails with IllegalState. */
  lemma NextRemoveSkipsNothing<T>(it: Itr, l: L.SliceList<T>)
    requires L.Valid(l) && ItrValid(it, l) && it.cursor < l.size
    ensures var (it1, _) := Next(it, l);
            var (it2, l2, err) := Remove(it1, l);
            && err == Pass
            && l2.data == SeqSpec.RemoveAt(l.data, it.cursor)
            && Drain(it2, l2) == l.data[it.cursor + 1..]
            && Remove(it2, l2).2 == Fail(Errors.IllegalState)
  {
    var (it1, _) := Next(it, l);
    var (it2, l2, err) := Remove(it1, l);
    DrainYieldsSuffix(it2, l2);
    assert l2.data[it.cursor..] == l.data[it.cursor + 1..];
  }
}
