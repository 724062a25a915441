/** queue/slice_dequeue.go: a double-ended queue in a ring buffer.

    The buffer `elements` has a power-of-two length; a slot is `None` when
    Go holds nil there. `head` indexes the first element and `tail` the
    slot after the last one. Go masks indices with `& (len-1)`; for a
    power-of-two length that is the non-negative remainder, written `% cap`
    here (Dafny's `%` is Euclidean, so `(head-1) % cap` is `cap-1` when
    head is 0, as in two's complement). The buffer doubles as soon as an
    insertion makes head meet tail, so a valid deque always has an empty
    slot. Operations return the new deque. */
module SliceDeque {

  import opened Wrappers
  import Errors
  import GoInts
  import GoSlices

  datatype SliceDeque<T> = SliceDeque(elements: seq<Option<T>>, head: int, tail: int)

  predicate IsPow2(n: int)
    decreases if n < 0 then 0 else n
  {
    n == 1 || (n >= 2 && n % 2 == 0 && IsPow2(n / 2))
  }

  lemma DoublePow2(n: int)
    requires IsPow2(n)
    ensures IsPow2(2 * n)
  {
    assert (2 * n) / 2 == n;
  }

  /** Go's `x & (cap-1)` for a power-of-two cap. */
  function Mask(x: int, cap: int): (r: int)
    requires cap >= 1
    ensures 0 <= r < cap
  {
    x % cap
  }

  /** One step forward or back around the ring. */
  lemma MaskStep(x: int, cap: int)
    requires cap >= 1 && -1 <= x <= cap
    ensures Mask(x, cap) == if x == -1 then cap - 1 else if x == cap then 0 else x
  {
    if x == -1 {
      assert x == cap * -1 + (cap - 1);
    } else if x == cap {
      assert x == cap * 1 + 0;
    } else {
      assert x == cap * 0 + x;
    }
  }

  /** Steps from slot `from` forward to slot `to` around a ring of cap slots. */
  function Dist(from: int, to: int, cap: int): int {
    if from <= to then to - from else to - from + cap
  }

  /** The slot k steps after h. */
  function Slot(h: int, k: int, cap: int): int {
    if h + k < cap then h + k else h + k - cap
  }

  lemma SlotDist(h: int, k: int, cap: int)
    requires 0 <= h < cap && 0 <= k < cap
    ensures 0 <= Slot(h, k, cap) < cap
    ensures Dist(h, Slot(h, k, cap), cap) == k
  {
  }

  /** Ring invariant: a power-of-two buffer, head and tail in range, and a
      slot holds a value exactly when it lies in the circular range [head, tail). */
  predicate Valid<T>(d: SliceDeque<T>) {
    var cap := |d.elements|;
    && IsPow2(cap)
    && 0 <= d.head < cap
    && 0 <= d.tail < cap
    && forall i :: 0 <= i < cap ==> (d.elements[i].Some? <==> Dist(d.head, i, cap) < Dist(d.head, d.tail, cap))
  }

  /** The run of n values from slot h on. */
  function Window<T>(el: seq<Option<T>>, h: int, n: int): (s: seq<T>)
    requires 0 <= h < |el| && 0 <= n <= |el|
    requires forall k :: 0 <= k < n ==> el[Slot(h, k, |el|)].Some?
    ensures |s| == n
    ensures forall k :: 0 <= k < n ==> el[Slot(h, k, |el|)] == Some(s[k])
  {
    seq(n, k requires 0 <= k < n => el[Slot(h, k, |el|)].value)
  }

  /** The number of elements: the circular distance from head to tail. */
  function Size<T>(d: SliceDeque<T>): (n: int)
    requires Valid(d)
    ensures 0 <= n < |d.elements|
    ensures n == |set i | 0 <= i < |d.elements| && d.elements[i].Some?|
  {
    var cap := |d.elements|;
    var n := Dist(d.head, d.tail, cap);
    CountOccupied(d);
    n
  }

  /** The occupied slots are exactly the n slots after head. */
  lemma CountOccupied<T>(d: SliceDeque<T>)
    requires Valid(d)
    ensures |set i | 0 <= i < |d.elements| && d.elements[i].Some?| == Dist(d.head, d.tail, |d.elements|)
  {
    var cap := |d.elements|;
    var n := Dist(d.head, d.tail, cap);
    var occupied := set i | 0 <= i < cap && d.elements[i].Some?;
    var slots := set k | 0 <= k < n :: Slot(d.head, k, cap);
    forall i | i in occupied ensures i in slots {
      var k := Dist(d.head, i, cap);
      assert Slot(d.head, k, cap) == i;
    }
    forall i | i in slots ensures i in occupied {
      var k :| 0 <= k < n && i == Slot(d.head, k, cap);
      SlotDist(d.head, k, cap);
    }
    assert occupied == slots;
    SlotsCount(d.head, n, cap);
  }

  lemma {:induction false} SlotsCount(h: int, n: int, cap: int)
    requires 0 <= h < cap && 0 <= n <= cap
    ensures |set k | 0 <= k < n :: Slot(h, k, cap)| == n
  {
    if n > 0 {
      var prev := set k | 0 <= k < n - 1 :: Slot(h, k, cap);
      var all := set k | 0 <= k < n :: Slot(h, k, cap);
      SlotsCount(h, n - 1, cap);
      assert all == prev + {Slot(h, n - 1, cap)};
      SlotDist(h, n - 1, cap);
      forall k | 0 <= k < n - 1 ensures Slot(h, k, cap) != Slot(h, n - 1, cap) {
        SlotDist(h, k, cap);
      }
    }
  }

  /** The queue's elements, first to last. */
  function Elems<T>(d: SliceDeque<T>): (s: seq<T>)
    requires Valid(d)
    ensures |s| == Size(d)
    ensures forall k :: 0 <= k < |s| ==> d.elements[Slot(d.head, k, |d.elements|)] == Some(s[k])
  {
    var cap := |d.elements|;
    forall k | 0 <= k < Size(d) ensures d.elements[Slot(d.head, k, cap)].Some? {
      SlotDist(d.head, k, cap);
    }
    Window(d.elements, d.head, Size(d))
  }

  /** Go's `x & p` for a power of two p: p when that bit of x (in two's
      complement) is set, 0 otherwise. */
  function AndPow2(x: int, p: int): (r: int)
    requires p >= 1
    ensures r == 0 || r == p
  {
    if (x / p) % 2 == 1 then p else 0
  }

  /** Size as written: `&` binds tighter than `-`, so this is
      `((tail-head) & cap) - 1`. */
  function SizeAsWritten<T>(d: SliceDeque<T>): (r: int)
    requires Valid(d)
    ensures r == if d.tail < d.head then |d.elements| - 1 else -1
  {
    var cap := |d.elements|;
    AndPow2Small(d.tail - d.head, cap);
    AndPow2(d.tail - d.head, cap) - 1
  }

  /** Within one ring length either side of 0, the cap bit of x is set
      exactly when x is negative. */
  lemma AndPow2Small(x: int, p: int)
    requires p >= 1 && -p < x < p
    ensures AndPow2(x, p) == if x < 0 then p else 0
  {
    if x < 0 {
      assert x == p * -1 + (x + p);
    } else {
      assert x == p * 0 + x;
    }
  }

  /** IsEmpty as written: compares SizeAsWritten with 0. */
  function IsEmptyAsWritten<T>(d: SliceDeque<T>): (r: bool)
    requires Valid(d)
    ensures !r
  {
    SizeAsWritten(d) == 0
  }

  /** IsEmpty with the size the expression evidently intends. */
  function IsEmpty<T>(d: SliceDeque<T>): (r: bool)
    requires Valid(d)
    ensures r <==> Elems(d) == []
  {
    Size(d) == 0
  }

  /** One element in a ring of two: the written Size says -1, the intended Size 1. */
  lemma SizeAsWrittenWrong()
    ensures var d := SliceDeque([Some(5), None], 0, 1);
            Valid(d) && SizeAsWritten(d) == -1 && Size(d) == 1 && Elems(d) == [5]
  {
    var d := SliceDeque([Some(5), None], 0, 1);
    assert IsPow2(2) by { assert IsPow2(2 / 2); }
    assert Slot(0, 0, 2) == 0;
  }

  /** Contains: scans from head until a nil slot; false for nil. The Go
      method also returns an error, which is always nil, so only the
      boolean is modelled. */
  method Contains<T(==)>(d: SliceDeque<T>, e: Option<T>) returns (r: bool)
    requires Valid(d)
    ensures r <==> e.Some? && e.value in Elems(d)
  {
    if e.None? {
      return false;
    }
    var cap := |d.elements|;
    var n := cap - 1;
    var i := d.head;
    ghost var k := 0;
    var x := d.elements[i];
    while x.Some?
      invariant 0 <= k <= Size(d)
      invariant i == Slot(d.head, k, cap)
      invariant x == d.elements[i]
      invariant forall j :: 0 <= j < k ==> Elems(d)[j] != e.value
      decreases Size(d) - k
    {
      SlotDist(d.head, k, cap);
      if x == e {
        return true;
      }
      MaskStep(i + 1, cap);
      i := Mask(i + 1, cap);
      k := k + 1;
      x := d.elements[i];
    }
    SlotDist(d.head, k, cap);
    return false;
  }

  /** Every slot is taken and head has met tail: the state in which the
      buffer doubles. */
  predicate Full<T>(d: SliceDeque<T>) {
    && IsPow2(|d.elements|)
    && 0 <= d.head < |d.elements|
    && d.head == d.tail
    && forall i :: 0 <= i < |d.elements| ==> d.elements[i].Some?
  }

  /** The error doubleCapacity reports when the doubled length overflows int. */
  const DequeTooBig := Errors.Message("deque too big")

  /** doubleCapacity: a buffer twice as long holding the old slots from head
      on, then those before head; head becomes 0 and tail the old length.
      Fails when the doubled length overflows Go's int. */
  function DoubleCapacity<T>(d: SliceDeque<T>): (r: (SliceDeque<T>, Outcome<Errors.Error>))
    requires Full(d)
    ensures r.1.Fail? <==> 2 * |d.elements| > GoInts.MaxInt64
    ensures r.1.Fail? ==> r == (d, Fail(DequeTooBig))
    ensures r.1.Pass? ==>
              && Valid(r.0)
              && |r.0.elements| == 2 * |d.elements|
              && Elems(r.0) == Window(d.elements, d.head, |d.elements|)
  {
    var n := |d.elements|;
    var newSize := 2 * n;
    if newSize > GoInts.MaxInt64 then (d, Fail(DequeTooBig))
    else
      var elements := Unwrap(d.elements, d.head, newSize);
      var d' := SliceDeque(elements, 0, n);
      DoublePow2(n);
      DoubledValid(d, d');
      (d', Pass)
  }

  /** The two copies doubleCapacity and Slice make: the slots from h to the
      end, then those before h, into a fresh nil buffer of the given length. */
  function Unwrap<T>(el: seq<Option<T>>, h: int, length: int): (r: seq<Option<T>>)
    requires 0 <= h < |el| <= length
    ensures |r| == length
    ensures forall k :: 0 <= k < |el| ==> r[k] == el[Slot(h, k, |el|)]
    ensures forall k :: |el| <= k < length ==> r[k].None?
  {
    var n := |el|;
    var elements0: seq<Option<T>> := seq(length, _ => None);
    var elements1 := GoSlices.CopyAt(elements0, 0, el[h..n]);
    GoSlices.CopyAt(elements1, n - h, el[..h])
  }

  lemma DoubledValid<T>(d: SliceDeque<T>, d': SliceDeque<T>)
    requires Full(d) && IsPow2(2 * |d.elements|)
    requires d' == SliceDeque(Unwrap(d.elements, d.head, 2 * |d.elements|), 0, |d.elements|)
    ensures Valid(d') && Elems(d') == Window(d.elements, d.head, |d.elements|)
  {
    var n := |d.elements|;
    forall i | 0 <= i < 2 * n ensures d'.elements[i].Some? <==> i < n {
      if i < n {
        SlotDist(d.head, i, n);
      }
    }
    PrefixValid(d'.elements, n);
    var before := Window(d.elements, d.head, n);
    forall k | 0 <= k < n ensures Elems(d')[k] == before[k] {
      assert Slot(0, k, 2 * n) == k;
    }
  }

  /** A buffer whose first n slots, and only those, are taken is a valid
      deque with head 0 and tail n. */
  lemma PrefixValid<T>(el: seq<Option<T>>, n: int)
    requires IsPow2(|el|) && 0 <= n < |el|
    requires forall i :: 0 <= i < |el| ==> (el[i].Some? <==> i < n)
    ensures Valid(SliceDeque(el, 0, n))
  {
    forall i | 0 <= i < |el| ensures Dist(0, i, |el|) == i {
    }
  }

  /** AddFirst writes e into the slot before head: the queue gains e in front. */
  lemma AddFirstStep<T>(d: SliceDeque<T>, e: T)
    requires Valid(d)
    ensures var cap := |d.elements|;
            var head := Mask(d.head - 1, cap);
            var d1 := SliceDeque(d.elements[head := Some(e)], head, d.tail);
            && (head != d.tail ==> Valid(d1) && Elems(d1) == [e] + Elems(d))
            && (head == d.tail ==> Full(d1) && Window(d1.elements, head, cap) == [e] + Elems(d))
  {
    var cap := |d.elements|;
    MaskStep(d.head - 1, cap);
    var head := Mask(d.head - 1, cap);
    var el := d.elements[head := Some(e)];
    var d1 := SliceDeque(el, head, d.tail);
    var want := [e] + Elems(d);
    FrontSlots(d, e);
    if head != d.tail {
      FrontValid(d, e);
      assert Elems(d1) == want;
    } else {
      assert Full(d1);
      assert Window(el, head, cap) == want;
    }
  }

  /** After AddFirst's write, slot k from the new head holds element k of
      [e] + Elems(d). */
  lemma FrontSlots<T>(d: SliceDeque<T>, e: T)
    requires Valid(d)
    ensures var cap := |d.elements|;
            var head := Mask(d.head - 1, cap);
            var want := [e] + Elems(d);
            |want| <= cap &&
            forall k :: 0 <= k < |want| ==> d.elements[head := Some(e)][Slot(head, k, cap)] == Some(want[k])
  {
    var cap := |d.elements|;
    MaskStep(d.head - 1, cap);
    var head := Mask(d.head - 1, cap);
    var el := d.elements[head := Some(e)];
    var want := [e] + Elems(d);
    forall k | 0 <= k < |want| ensures el[Slot(head, k, cap)] == Some(want[k]) {
      if k > 0 {
        assert Slot(head, k, cap) == Slot(d.head, k - 1, cap);
        SlotDist(d.head, k - 1, cap);
      }
    }
  }

  /** When AddFirst's new head has not met tail, the deque is still valid. */
  lemma FrontValid<T>(d: SliceDeque<T>, e: T)
    requires Valid(d)
    requires Mask(d.head - 1, |d.elements|) != d.tail
    ensures var head := Mask(d.head - 1, |d.elements|);
            Valid(SliceDeque(d.elements[head := Some(e)], head, d.tail))
  {
    var cap := |d.elements|;
    MaskStep(d.head - 1, cap);
    var head := Mask(d.head - 1, cap);
    forall i | 0 <= i < cap
      ensures Dist(head, i, cap) == if i == head then 0 else Dist(d.head, i, cap) + 1
    {
    }
  }

  /** AddLast writes e into the tail slot: the queue gains e at the back. */
  lemma AddLastStep<T>(d: SliceDeque<T>, e: T)
    requires Valid(d)
    ensures var cap := |d.elements|;
            var tail := Mask(d.tail + 1, cap);
            var d1 := SliceDeque(d.elements[d.tail := Some(e)], d.head, tail);
            && (tail != d.head ==> Valid(d1) && Elems(d1) == Elems(d) + [e])
            && (tail == d.head ==> Full(d1) && Window(d1.elements, d.head, cap) == Elems(d) + [e])
  {
    var cap := |d.elements|;
    MaskStep(d.tail + 1, cap);
    var tail := Mask(d.tail + 1, cap);
    var el := d.elements[d.tail := Some(e)];
    var d1 := SliceDeque(el, d.head, tail);
    var n := Size(d);
    var want := Elems(d) + [e];
    assert Slot(d.head, n, cap) == d.tail;
    forall k | 0 <= k < n + 1
      ensures el[Slot(d.head, k, cap)] == Some(want[k])
    {
      SlotDist(d.head, k, cap);
    }
    if tail != d.head {
      assert Dist(d.head, tail, cap) == n + 1;
      assert Valid(d1);
      assert Elems(d1) == want;
    } else {
      assert n + 1 == cap;
      assert Full(d1);
      assert Window(el, d.head, cap) == want;
    }
  }

  /** AddFirst: rejects nil with NilPointer; otherwise e becomes the first
      element, doubling the buffer when it fills. */
  function AddFirst<T>(d: SliceDeque<T>, e: Option<T>): (r: (SliceDeque<T>, Outcome<Errors.Error>))
    requires Valid(d)
    ensures e.None? ==> r == (d, Fail(Errors.NilPointer))
    ensures e.Some? && r.1.Pass? ==> Valid(r.0) && Elems(r.0) == [e.value] + Elems(d)
    ensures e.Some? && r.1.Fail? ==> r.1.error == DequeTooBig && 2 * |d.elements| > GoInts.MaxInt64
    ensures e.Some? && 2 * |d.elements| <= GoInts.MaxInt64 ==> r.1.Pass?
  {
    if e.None? then (d, Fail(Errors.NilPointer))
    else
      var cap := |d.elements|;
      var head := Mask(d.head - 1, cap);
      var d1 := SliceDeque(d.elements[head := e], head, d.tail);
      AddFirstStep(d, e.value);
      if head == d.tail then DoubleCapacity(d1) else (d1, Pass)
  }

  /** AddLast: rejects nil with NilPointer; otherwise e becomes the last
      element, doubling the buffer when it fills. */
  function AddLast<T>(d: SliceDeque<T>, e: Option<T>): (r: (SliceDeque<T>, Outcome<Errors.Error>))
    requires Valid(d)
    ensures e.None? ==> r == (d, Fail(Errors.NilPointer))
    ensures e.Some? && r.1.Pass? ==> Valid(r.0) && Elems(r.0) == Elems(d) + [e.value]
    ensures e.Some? && r.1.Fail? ==> r.1.error == DequeTooBig && 2 * |d.elements| > GoInts.MaxInt64
    ensures e.Some? && 2 * |d.elements| <= GoInts.MaxInt64 ==> r.1.Pass?
  {
    if e.None? then (d, Fail(Errors.NilPointer))
    else
      var cap := |d.elements|;
      var elements := d.elements[d.tail := e];
      var tail := Mask(d.tail + 1, cap);
      var d1 := SliceDeque(elements, d.head, tail);
      AddLastStep(d, e.value);
      if tail == d.head then DoubleCapacity(d1) else (d1, Pass)
  }

  /** RemoveFirst: the first element, whose slot is cleared while head moves
      on; NoSuchElement when the head slot is nil. */
  function RemoveFirst<T>(d: SliceDeque<T>): (r: (SliceDeque<T>, Result<T, Errors.Error>))
    requires Valid(d)
    ensures Valid(r.0)
    ensures Elems(d) == [] ==> r == (d, Err(Errors.NoSuchElement))
    ensures Elems(d) != [] ==> r.1 == Ok(Elems(d)[0]) && Elems(r.0) == Elems(d)[1..]
  {
    var cap := |d.elements|;
    var element := d.elements[d.head];
    SlotDist(d.head, 0, cap);
    if element.None? then (d, Err(Errors.NoSuchElement))
    else
      var elements := d.elements[d.head := None];
      MaskStep(d.head + 1, cap);
      var head := Mask(d.head + 1, cap);
      var d' := SliceDeque(elements, head, d.tail);
      RemoveFirstStep(d, d');
      (d', Ok(element.value))
  }

  lemma RemoveFirstStep<T>(d: SliceDeque<T>, d': SliceDeque<T>)
    requires Valid(d) && Size(d) > 0
    requires var cap := |d.elements|;
             d' == SliceDeque(d.elements[d.head := None], if d.head + 1 == cap then 0 else d.head + 1, d.tail)
    ensures Valid(d') && Elems(d') == Elems(d)[1..]
  {
    var cap := |d.elements|;
    var n := Size(d);
    forall i | 0 <= i < cap
      ensures Dist(d'.head, i, cap) == if i == d.head then cap - 1 else Dist(d.head, i, cap) - 1
    {
    }
    assert Valid(d');
    forall k | 0 <= k < n - 1 ensures Elems(d')[k] == Elems(d)[k + 1] {
      assert Slot(d'.head, k, cap) == Slot(d.head, k + 1, cap);
      SlotDist(d.head, k + 1, cap);
    }
  }

  /** RemoveLast: the last element, whose slot is cleared and becomes the
      new tail; NoSuchElement when the slot before tail is nil. */
  function RemoveLast<T>(d: SliceDeque<T>): (r: (SliceDeque<T>, Result<T, Errors.Error>))
    requires Valid(d)
    ensures Valid(r.0)
    ensures Elems(d) == [] ==> r == (d, Err(Errors.NoSuchElement))
    ensures Elems(d) != [] ==>
              r.1 == Ok(Elems(d)[|Elems(d)| - 1]) && Elems(r.0) == Elems(d)[..|Elems(d)| - 1]
  {
    var cap := |d.elements|;
    MaskStep(d.tail - 1, cap);
    var t := Mask(d.tail - 1, cap);
    var element := d.elements[t];
    if element.None? then
      (d, Err(Errors.NoSuchElement))
    else
      var d' := SliceDeque(d.elements[t := None], d.head, t);
      RemoveLastStep(d, d');
      (d', Ok(element.value))
  }

  lemma RemoveLastStep<T>(d: SliceDeque<T>, d': SliceDeque<T>)
    requires Valid(d)
    requires var cap := |d.elements|;
             var t := if d.tail == 0 then cap - 1 else d.tail - 1;
             d.elements[t].Some? && d' == SliceDeque(d.elements[t := None], d.head, t)
    ensures Size(d) > 0
    ensures d.elements[d'.tail] == Some(Elems(d)[Size(d) - 1])
    ensures Valid(d') && Elems(d') == Elems(d)[..Size(d) - 1]
  {
    var cap := |d.elements|;
    var n := Size(d);
    var t := d'.tail;
    assert Dist(d.head, t, cap) < n;
    assert Dist(d.head, t, cap) == n - 1;
    assert Slot(d.head, n - 1, cap) == t;
    assert Valid(d');
    forall k | 0 <= k < n - 1 ensures Elems(d')[k] == Elems(d)[k] {
      SlotDist(d.head, k, cap);
    }
  }

  /** GetFirst: the first element without removing it; NoSuchElement when empty. */
  function GetFirst<T>(d: SliceDeque<T>): (r: Result<T, Errors.Error>)
    requires Valid(d)
    ensures Elems(d) == [] ==> r == Err(Errors.NoSuchElement)
    ensures Elems(d) != [] ==> r == Ok(Elems(d)[0])
  {
    var element := d.elements[d.head];
    SlotDist(d.head, 0, |d.elements|);
    if element.None? then Err(Errors.NoSuchElement) else Ok(element.value)
  }

  /** GetLast: the last element without removing it; NoSuchElement when empty. */
  function GetLast<T>(d: SliceDeque<T>): (r: Result<T, Errors.Error>)
    requires Valid(d)
    ensures Elems(d) == [] ==> r == Err(Errors.NoSuchElement)
    ensures Elems(d) != [] ==> r == Ok(Elems(d)[|Elems(d)| - 1])
  {
    var cap := |d.elements|;
    MaskStep(d.tail - 1, cap);
    var t := Mask(d.tail - 1, cap);
    var element := d.elements[t];
    if element.None? then Err(Errors.NoSuchElement)
    else
      RemoveLastStep(d, SliceDeque(d.elements[t := None], d.head, t));
      Ok(element.value)
  }

  /** Peek: the head slot, nil (None) when empty. */
  function Peek<T>(d: SliceDeque<T>): (r: Option<T>)
    requires Valid(d)
    ensures Elems(d) == [] ==> r == None
    ensures Elems(d) != [] ==> r == Some(Elems(d)[0])
  {
    SlotDist(d.head, 0, |d.elements|);
    d.elements[d.head]
  }

  /** Poll: RemoveFirst with the error dropped, so nil (None) when empty. */
  function Poll<T>(d: SliceDeque<T>): (r: (SliceDeque<T>, Option<T>))
    requires Valid(d)
    ensures Valid(r.0)
    ensures Elems(d) == [] ==> r == (d, None)
    ensures Elems(d) != [] ==> r.1 == Some(Elems(d)[0]) && Elems(r.0) == Elems(d)[1..]
  {
    var (d', element) := RemoveFirst(d);
    (d', if element.Ok? then Some(element.value) else None)
  }

  /** Delete and Pop are RemoveFirst; Element is GetFirst. */
  function Delete<T>(d: SliceDeque<T>): (r: (SliceDeque<T>, Result<T, Errors.Error>))
    requires Valid(d)
    ensures Valid(r.0)
    ensures Elems(d) == [] ==> r == (d, Err(Errors.NoSuchElement))
    ensures Elems(d) != [] ==> r.1 == Ok(Elems(d)[0]) && Elems(r.0) == Elems(d)[1..]
  {
    RemoveFirst(d)
  }

  function Pop<T>(d: SliceDeque<T>): (r: (SliceDeque<T>, Result<T, Errors.Error>))
    requires Valid(d)
    ensures Valid(r.0)
    ensures Elems(d) == [] ==> r == (d, Err(Errors.NoSuchElement))
    ensures Elems(d) != [] ==> r.1 == Ok(Elems(d)[0]) && Elems(r.0) == Elems(d)[1..]
  {
    RemoveFirst(d)
  }

  function Element<T>(d: SliceDeque<T>): (r: Result<T, Errors.Error>)
    requires Valid(d)
    ensures Elems(d) == [] ==> r == Err(Errors.NoSuchElement)
    ensures Elems(d) != [] ==> r == Ok(Elems(d)[0])
  {
    GetFirst(d)
  }

  /** Push is AddFirst. */
  function Push<T>(d: SliceDeque<T>, e: Option<T>): (r: (SliceDeque<T>, Outcome<Errors.Error>))
    requires Valid(d)
    ensures e.None? ==> r == (d, Fail(Errors.NilPointer))
    ensures e.Some? && r.1.Pass? ==> Valid(r.0) && Elems(r.0) == [e.value] + Elems(d)
    ensures e.Some? && r.1.Fail? ==> r.1.error == DequeTooBig && 2 * |d.elements| > GoInts.MaxInt64
    ensures e.Some? && 2 * |d.elements| <= GoInts.MaxInt64 ==> r.1.Pass?
  {
    AddFirst(d, e)
  }

  /** Add is AddLast and reports true whatever the outcome. */
  function Add<T>(d: SliceDeque<T>, e: Option<T>): (r: (SliceDeque<T>, bool, Outcome<Errors.Error>))
    requires Valid(d)
    ensures r.1
    ensures e.None? ==> r.0 == d && r.2 == Fail(Errors.NilPointer)
    ensures e.Some? && r.2.Pass? ==> Valid(r.0) && Elems(r.0) == Elems(d) + [e.value]
    ensures e.Some? && r.2.Fail? ==> r.2.error == DequeTooBig && 2 * |d.elements| > GoInts.MaxInt64
    ensures e.Some? && 2 * |d.elements| <= GoInts.MaxInt64 ==> r.2.Pass?
  {
    var (d', err) := AddLast(d, e);
    (d', true, err)
  }

  /** Offer is AddLast, reporting false with the error when it fails. */
  function Offer<T>(d: SliceDeque<T>, e: Option<T>): (r: (SliceDeque<T>, bool, Outcome<Errors.Error>))
    requires Valid(d)
    ensures r.1 <==> r.2.Pass?
    ensures e.None? ==> r == (d, false, Fail(Errors.NilPointer))
    ensures e.Some? && r.1 ==> Valid(r.0) && Elems(r.0) == Elems(d) + [e.value]
    ensures e.Some? && !r.1 ==> r.2 == Fail(DequeTooBig) && 2 * |d.elements| > GoInts.MaxInt64
    ensures e.Some? && 2 * |d.elements| <= GoInts.MaxInt64 ==> r.1
  {
    var (d', err) := AddLast(d, e);
    if err.Fail? then (d', false, err) else (d', true, Pass)
  }

  /** Slice: the whole buffer rotated so that head comes first: the elements
      in order, then nil slots up to the buffer's length. */
  function Slice<T>(d: SliceDeque<T>): (r: seq<Option<T>>)
    requires Valid(d)
    ensures |r| == |d.elements|
    ensures forall k :: 0 <= k < |Elems(d)| ==> r[k] == Some(Elems(d)[k])
    ensures forall k :: |Elems(d)| <= k < |r| ==> r[k].None?
  {
    var n := |d.elements|;
    var elements := Unwrap(d.elements, d.head, n);
    forall k | Size(d) <= k < n ensures elements[k].None? {
      SlotDist(d.head, k, n);
    }
    elements
  }

  /** Pushing then popping gives back the pushed value and the same queue. */
  lemma PushPopRoundTrip<T>(d: SliceDeque<T>, e: T)
    requires Valid(d) && 2 * |d.elements| <= GoInts.MaxInt64
    ensures var (d1, _) := Push(d, Some(e));
            var (d2, v) := Pop(d1);
            v == Ok(e) && Elems(d2) == Elems(d)
  {
    var (d1, _) := Push(d, Some(e));
    assert Elems(d1) == [e] + Elems(d);
  }

  /** Offer then RemoveLast gives back the offered value and the same queue. */
  lemma OfferRemoveLastRoundTrip<T>(d: SliceDeque<T>, e: T)
    requires Valid(d) && 2 * |d.elements| <= GoInts.MaxInt64
    ensures var (d1, ok, _) := Offer(d, Some(e));
            var (d2, v) := RemoveLast(d1);
            ok && v == Ok(e) && Elems(d2) == Elems(d)
  {
    var (d1, ok, _) := Offer(d, Some(e));
    assert Elems(d1) == Elems(d) + [e];
    assert Elems(d1)[..|Elems(d1)| - 1] == Elems(d);
  }
}
