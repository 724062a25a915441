/** stack/stack.go: a singly linked LIFO stack with a separate length counter.

    A node chain is the datatype Link; the stack keeps the top link and the
    counter, as the Go struct does. Valid ties the counter to the chain.
    Operations return the new stack. */
module Stack {

  import opened Wrappers
  import Errors

  datatype Link<T> = Nil | Node(data: T, prev: Link<T>)

  datatype Stack<T> = Stack(top: Link<T>, length: int)

  /** The values of a chain, top first. */
  function Items<T>(l: Link<T>): (s: seq<T>)
    ensures l.Nil? <==> |s| == 0
    ensures l.Node? ==> s[0] == l.data && s[1..] == Items(l.prev)
  {
    match l
    case Nil => []
    case Node(d, p) => [d] + Items(p)
  }

  /** The counter is the number of linked nodes. */
  predicate Valid<T>(st: Stack<T>) {
    st.length == |Items(st.top)|
  }

  /** NewStack: no nodes, length 0. */
  function NewStack<T>(): (st: Stack<T>)
    ensures Valid(st) && Items(st.top) == []
  {
    Stack(Nil, 0)
  }

  /** Len: the counter, which is the number of items of a valid stack. */
  function Len<T>(st: Stack<T>): (r: int)
    ensures Valid(st) ==> r == |Items(st.top)|
  {
    st.length
  }

  /** IsEmpty: Len is 0, which for a valid stack means no items. */
  function IsEmpty<T>(st: Stack<T>): (r: bool)
    ensures r <==> Len(st) == 0
    ensures Valid(st) ==> (r <==> Items(st.top) == [])
  {
    Len(st) == 0
  }

  /** Push: v becomes the top, one more item below which the old ones stay. */
  function Push<T>(st: Stack<T>, v: T): (r: Stack<T>)
    ensures Items(r.top) == [v] + Items(st.top)
    ensures r.length == st.length + 1
    ensures Valid(st) ==> Valid(r)
  {
    Stack(Node(v, st.top), st.length + 1)
  }

  /** Peek: the top value, NotExist when the counter is 0. A counter above 0
      over an empty chain would dereference nil in Go. */
  function Peek<T>(st: Stack<T>): (r: Result<T, Errors.Error>)
    ensures st.length == 0 ==> r == Err(Errors.NotExist)
    ensures Valid(st) && st.length > 0 ==> r == Ok(Items(st.top)[0])
  {
    if st.length == 0 then Err(Errors.NotExist)
    else match st.top
      case Nil => Err(Errors.NilDereference)
      case Node(d, _) => Ok(d)
  }

  /** Pop as written: it unlinks the top but returns the data of the NEW top,
      and dereferences nil when the last item is popped. */
  function PopAsWritten<T>(st: Stack<T>): (r: (Stack<T>, Result<T, Errors.Error>))
    ensures st.length == 0 ==> r == (st, Err(Errors.NotExist))
    ensures Valid(st) && st.length >= 2 ==> r.1 == Ok(Items(st.top)[1])
    ensures Valid(st) && st.length == 1 ==> r.1 == Err(Errors.NilDereference)
  {
    if st.length == 0 then (st, Err(Errors.NotExist))
    else
      var length := st.length - 1;
      match st.top
      case Nil => (Stack(st.top, length), Err(Errors.NilDereference))
      case Node(_, prev) =>
        match prev
        case Nil => (Stack(prev, length), Err(Errors.NilDereference))
        case Node(d, _) => (Stack(prev, length), Ok(d))
  }

  /** Pop as documented: unlinks the top and returns the removed value. */
  function Pop<T>(st: Stack<T>): (r: (Stack<T>, Result<T, Errors.Error>))
    ensures st.length == 0 ==> r == (st, Err(Errors.NotExist))
    ensures Valid(st) && st.length > 0 ==>
              && r.1 == Ok(Items(st.top)[0])
              && Items(r.0.top) == Items(st.top)[1..]
              && r.0.length == st.length - 1
              && Valid(r.0)
  {
    if st.length == 0 then (st, Err(Errors.NotExist))
    else
      var length := st.length - 1;
      match st.top
      case Nil => (Stack(st.top, length), Err(Errors.NilDereference))
      case Node(d, prev) => (Stack(prev, length), Ok(d))
  }

  /** Clean: no items, length 0. */
  function Clean<T>(st: Stack<T>): (r: Stack<T>)
    ensures Valid(r) && IsEmpty(r) && Items(r.top) == []
  {
    Stack(Nil, 0)
  }

  /** Pop undoes Push, and Peek after Push sees the pushed value. */
  lemma PushPopRoundTrip<T>(st: Stack<T>, v: T)
    requires Valid(st)
    ensures Pop(Push(st, v)) == (st, Ok(v))
    ensures Peek(Push(st, v)) == Ok(v)
  {
  }

  /** Popping every item off a valid stack returns them top first and
      leaves the stack empty. */
  lemma {:induction false} PopAllYieldsItems<T>(st: Stack<T>)
    requires Valid(st)
    ensures PopAll(st) == Items(st.top)
    decreases st.length
  {
    if st.length > 0 {
      PopAllYieldsItems(Pop(st).0);
    }
  }

  /** The values Pop returns until the stack reports NotExist. */
  function PopAll<T>(st: Stack<T>): seq<T>
    requires Valid(st)
    decreases st.length
  {
    if st.length == 0 then []
    else
      var (rest, v) := Pop(st);
      [v.value] + PopAll(rest)
  }

  /** As written, popping after pushing 1, 2, 3 yields 2 (the new top), not
      the removed 3, and popping the only item dereferences nil. */
  lemma PopReturnsNewTop()
    ensures var st := Push(Push(Push(NewStack(), 1), 2), 3);
            PopAsWritten(st).1 == Ok(2) && Pop(st).1 == Ok(3)
    ensures PopAsWritten(Push(NewStack(), 1)).1 == Err(Errors.NilDereference)
    ensures Pop(Push(NewStack(), 1)).1 == Ok(1)
  {
  }
}
