/** list/linked_list.go: a doubly linked list that also serves as a queue,
    a deque and a stack.

    The Go nodes live on the heap and point at one another. Here they live
    in an arena `nodes`, and a pointer is an arena index (`None` for nil).
    An allocation appends to the arena and nodes are never reclaimed. Every
    contract names the chain through a spine parameter `s`: the arena indices
    of the linked nodes, first to last. Chain says the pointers follow the
    spine; Valid adds that the `size` counter is the spine's length.
    Operations return the new list. */
module List {

  import opened Wrappers
  import Errors
  import SeqSpec

  datatype Node<T> = Node(elem: T, next: Option<nat>, prev: Option<nat>)

  datatype LinkedList<T> = LinkedList(nodes: seq<Node<T>>, first: Option<nat>, last: Option<nat>, size: int)

  /** A node with its prev (next) pointer replaced. */
  function WithPrev<T>(n: Node<T>, p: Option<nat>): Node<T> {
    Node(n.elem, n.next, p)
  }

  function WithNext<T>(n: Node<T>, p: Option<nat>): Node<T> {
    Node(n.elem, p, n.prev)
  }

  /** The spine s lists distinct arena indices. */
  ghost predicate Spine<T>(l: LinkedList<T>, s: seq<nat>) {
    && (forall i :: 0 <= i < |s| ==> s[i] < |l.nodes|)
    && (forall i, j :: 0 <= i < j < |s| ==> s[i] != s[j])
  }

  /** first and last are the spine's ends (both nil when it is empty), the
      first node has no prev and the last no next. */
  ghost predicate Ends<T>(l: LinkedList<T>, s: seq<nat>)
    requires Spine(l, s)
  {
    && l.first == (if |s| == 0 then None else Some(s[0]))
    && l.last == (if |s| == 0 then None else Some(s[|s| - 1]))
    && (|s| > 0 ==> l.nodes[s[0]].prev.None? && l.nodes[s[|s| - 1]].next.None?)
  }

  /** Consecutive spine nodes point at each other. */
  ghost predicate Linked<T>(l: LinkedList<T>, s: seq<nat>)
    requires Spine(l, s)
  {
    forall i, j :: 0 <= i && j == i + 1 && j < |s| ==>
      l.nodes[s[i]].next == Some(s[j]) && l.nodes[s[j]].prev == Some(s[i])
  }

  /** The pointers follow the spine. */
  ghost predicate Chain<T>(l: LinkedList<T>, s: seq<nat>) {
    Spine(l, s) && Ends(l, s) && Linked(l, s)
  }

  /** The list invariant: a well-formed chain whose length is `size`. */
  ghost predicate Valid<T>(l: LinkedList<T>, s: seq<nat>) {
    Chain(l, s) && l.size == |s|
  }

  /** The elements along the spine. */
  function Elems<T>(l: LinkedList<T>, s: seq<nat>): (r: seq<T>)
    requires Chain(l, s)
    ensures |r| == |s|
    ensures forall i :: 0 <= i < |s| ==> r[i] == l.nodes[s[i]].elem
  {
    seq(|s|, i requires 0 <= i < |s| => l.nodes[s[i]].elem)
  }

  /** An empty spine holds nothing: first and last are nil exactly when the
      size is 0. */
  lemma EmptyIffNil<T>(l: LinkedList<T>, s: seq<nat>)
    requires Valid(l, s)
    ensures l.size == 0 <==> l.first.None?
    ensures l.size == 0 <==> l.last.None?
  {
  }

  /** The neighbours of the k-th node on the spine are in the arena. */
  lemma Neighbours<T>(l: LinkedList<T>, s: seq<nat>, k: int)
    requires Chain(l, s) && 0 <= k < |s|
    ensures l.nodes[s[k]].prev == (if k > 0 then Some(s[k - 1]) else None)
    ensures l.nodes[s[k]].next == (if k + 1 < |s| then Some(s[k + 1]) else None)
    ensures k > 0 ==> s[k - 1] < |l.nodes|
    ensures k + 1 < |s| ==> s[k + 1] < |l.nodes|
  {
    if k > 0 {
      assert l.nodes[s[k - 1]].next == Some(s[k]) && l.nodes[s[k]].prev == Some(s[k - 1]);
    }
    if k + 1 < |s| {
      assert l.nodes[s[k]].next == Some(s[k + 1]);
    }
  }

  /** The arena after a node for e is linked in at spine position k: the new
      node sits at the arena's end between positions k-1 and k, those two
      point at it, and no other node changes. */
  ghost predicate InsertedAt<T>(l: LinkedList<T>, s: seq<nat>, e: T, k: int, r: LinkedList<T>) {
    && Chain(l, s) && 0 <= k <= |s|
    && |r.nodes| == |l.nodes| + 1
    && r.nodes[|l.nodes|] == Node(e, if k < |s| then Some(s[k]) else None, if k > 0 then Some(s[k - 1]) else None)
    && (k < |s| ==> r.nodes[s[k]] == WithPrev(l.nodes[s[k]], Some(|l.nodes|)))
    && (k > 0 ==> r.nodes[s[k - 1]] == WithNext(l.nodes[s[k - 1]], Some(|l.nodes|)))
    && (forall j :: 0 <= j < |l.nodes| && (k == |s| || j != s[k]) && (k == 0 || j != s[k - 1]) ==> r.nodes[j] == l.nodes[j])
    && r.first == (if k == 0 then Some(|l.nodes|) else l.first)
    && r.last == (if k == |s| then Some(|l.nodes|) else l.last)
  }

  /** Inserting a fresh index m into a spine of distinct indices below m. */
  lemma InsertSpine(s: seq<nat>, k: int, m: nat)
    requires 0 <= k <= |s|
    requires forall i :: 0 <= i < |s| ==> s[i] < m
    requires forall i, j :: 0 <= i < j < |s| ==> s[i] != s[j]
    ensures var s' := SeqSpec.InsertAt(s, k, m);
            && (forall i :: 0 <= i < |s'| ==> s'[i] <= m)
            && (forall i, j :: 0 <= i < j < |s'| ==> s'[i] != s'[j])
  {
    var s' := SeqSpec.InsertAt(s, k, m);
    forall i, j | 0 <= i < j < |s'| ensures s'[i] != s'[j] {
      if i != k && j != k {
        assert s'[i] == s[if i < k then i else i - 1];
        assert s'[j] == s[if j < k then j else j - 1];
      }
    }
  }

  /** What happened to the node at old spine position p. */
  lemma InsertNode<T>(l: LinkedList<T>, s: seq<nat>, e: T, k: int, r: LinkedList<T>, p: int)
    requires InsertedAt(l, s, e, k, r) && 0 <= p < |s|
    ensures r.nodes[s[p]] ==
              if p == k then WithPrev(l.nodes[s[p]], Some(|l.nodes|))
              else if p == k - 1 then WithNext(l.nodes[s[p]], Some(|l.nodes|))
              else l.nodes[s[p]]
  {
    if p != k && p != k - 1 {
      assert s[p] < |l.nodes|;
      if k < |s| {
        assert s[p] != s[k];
      }
      if k > 0 {
        assert s[p] != s[k - 1];
      }
    }
  }

  /** The links between positions i and i+1 of the new spine. */
  lemma InsertPair<T>(l: LinkedList<T>, s: seq<nat>, e: T, k: int, r: LinkedList<T>, i: int)
    requires InsertedAt(l, s, e, k, r) && 0 <= i < |s|
    ensures var s' := SeqSpec.InsertAt(s, k, |l.nodes|);
            r.nodes[s'[i]].next == Some(s'[i + 1]) && r.nodes[s'[i + 1]].prev == Some(s'[i])
  {
    if i + 1 < k {
      InsertNode(l, s, e, k, r, i);
      InsertNode(l, s, e, k, r, i + 1);
      Neighbours(l, s, i);
    } else if i + 1 == k {
      InsertNode(l, s, e, k, r, i);
    } else if i == k {
      InsertNode(l, s, e, k, r, i);
    } else {
      InsertNode(l, s, e, k, r, i - 1);
      InsertNode(l, s, e, k, r, i);
      Neighbours(l, s, i - 1);
    }
  }

  lemma InsertLinked<T>(l: LinkedList<T>, s: seq<nat>, e: T, k: int, r: LinkedList<T>)
    requires InsertedAt(l, s, e, k, r)
    requires Spine(r, SeqSpec.InsertAt(s, k, |l.nodes|))
    ensures Linked(r, SeqSpec.InsertAt(s, k, |l.nodes|))
  {
    var s' := SeqSpec.InsertAt(s, k, |l.nodes|);
    forall i, j | 0 <= i && j == i + 1 && j < |s'|
      ensures r.nodes[s'[i]].next == Some(s'[j]) && r.nodes[s'[j]].prev == Some(s'[i])
    {
      InsertPair(l, s, e, k, r, i);
    }
  }

  lemma InsertEnds<T>(l: LinkedList<T>, s: seq<nat>, e: T, k: int, r: LinkedList<T>)
    requires InsertedAt(l, s, e, k, r)
    requires Spine(r, SeqSpec.InsertAt(s, k, |l.nodes|))
    ensures Ends(r, SeqSpec.InsertAt(s, k, |l.nodes|))
  {
    if k > 0 {
      InsertNode(l, s, e, k, r, 0);
      Neighbours(l, s, 0);
    }
    if k < |s| {
      InsertNode(l, s, e, k, r, |s| - 1);
      Neighbours(l, s, |s| - 1);
    }
  }

  lemma InsertElems<T>(l: LinkedList<T>, s: seq<nat>, e: T, k: int, r: LinkedList<T>)
    requires InsertedAt(l, s, e, k, r)
    requires Chain(r, SeqSpec.InsertAt(s, k, |l.nodes|))
    ensures Elems(r, SeqSpec.InsertAt(s, k, |l.nodes|)) == SeqSpec.InsertAt(Elems(l, s), k, e)
  {
    var s' := SeqSpec.InsertAt(s, k, |l.nodes|);
    var E' := SeqSpec.InsertAt(Elems(l, s), k, e);
    forall i | 0 <= i < |s'| ensures r.nodes[s'[i]].elem == E'[i] {
      if i != k {
        InsertElem(l, s, e, k, r, i);
      }
    }
  }

  /** Position i != k of the new spine is an old node, which keeps its element. */
  lemma InsertElem<T>(l: LinkedList<T>, s: seq<nat>, e: T, k: int, r: LinkedList<T>, i: int)
    requires InsertedAt(l, s, e, k, r) && 0 <= i <= |s| && i != k
    ensures var p := if i < k then i else i - 1;
            SeqSpec.InsertAt(s, k, |l.nodes|)[i] == s[p] && r.nodes[s[p]].elem == l.nodes[s[p]].elem
  {
    InsertNode(l, s, e, k, r, if i < k then i else i - 1);
  }

  /** Linking a node in at position k inserts e at k of the elements. */
  lemma InsertChain<T>(l: LinkedList<T>, s: seq<nat>, e: T, k: int, r: LinkedList<T>)
    requires InsertedAt(l, s, e, k, r)
    ensures Chain(r, SeqSpec.InsertAt(s, k, |l.nodes|))
    ensures Elems(r, SeqSpec.InsertAt(s, k, |l.nodes|)) == SeqSpec.InsertAt(Elems(l, s), k, e)
  {
    InsertSpine(s, k, |l.nodes|);
    InsertLinked(l, s, e, k, r);
    InsertEnds(l, s, e, k, r);
    InsertElems(l, s, e, k, r);
  }

  /** The arena after the node at spine position k is unlinked: its
      neighbours point past it, and no other spine node changes. */
  ghost predicate RemovedAt<T>(l: LinkedList<T>, s: seq<nat>, k: int, r: LinkedList<T>) {
    && Chain(l, s) && 0 <= k < |s|
    && |r.nodes| == |l.nodes|
    && (k > 0 ==> r.nodes[s[k - 1]] == WithNext(l.nodes[s[k - 1]], if k + 1 < |s| then Some(s[k + 1]) else None))
    && (k + 1 < |s| ==> r.nodes[s[k + 1]] == WithPrev(l.nodes[s[k + 1]], if k > 0 then Some(s[k - 1]) else None))
    && (forall j :: 0 <= j < |l.nodes| && j != s[k] && (k == 0 || j != s[k - 1]) && (k + 1 == |s| || j != s[k + 1])
          ==> r.nodes[j] == l.nodes[j])
    && r.first == (if k == 0 then (if k + 1 < |s| then Some(s[k + 1]) else None) else l.first)
    && r.last == (if k + 1 == |s| then (if k > 0 then Some(s[k - 1]) else None) else l.last)
  }

  /** Dropping one index from a spine of distinct indices below m. */
  lemma RemoveSpine(s: seq<nat>, k: int, m: nat)
    requires 0 <= k < |s|
    requires forall i :: 0 <= i < |s| ==> s[i] < m
    requires forall i, j :: 0 <= i < j < |s| ==> s[i] != s[j]
    ensures var s' := SeqSpec.RemoveAt(s, k);
            && (forall i :: 0 <= i < |s'| ==> s'[i] < m)
            && (forall i, j :: 0 <= i < j < |s'| ==> s'[i] != s'[j])
  {
    var s' := SeqSpec.RemoveAt(s, k);
    forall i, j | 0 <= i < j < |s'| ensures s'[i] != s'[j] {
      assert s'[i] == s[if i < k then i else i + 1];
      assert s'[j] == s[if j < k then j else j + 1];
    }
  }

  /** What happened to the node at old spine position p, p != k. */
  lemma RemoveNode<T>(l: LinkedList<T>, s: seq<nat>, k: int, r: LinkedList<T>, p: int)
    requires RemovedAt(l, s, k, r) && 0 <= p < |s| && p != k
    ensures r.nodes[s[p]] ==
              if p == k - 1 then WithNext(l.nodes[s[p]], if k + 1 < |s| then Some(s[k + 1]) else None)
              else if p == k + 1 then WithPrev(l.nodes[s[p]], if k > 0 then Some(s[k - 1]) else None)
              else l.nodes[s[p]]
  {
    if p != k - 1 && p != k + 1 {
      assert s[p] < |l.nodes| && s[p] != s[k];
      if k > 0 {
        assert s[p] != s[k - 1];
      }
      if k + 1 < |s| {
        assert s[p] != s[k + 1];
      }
    }
  }

  /** The links between positions i and i+1 of the shortened spine. */
  lemma RemovePair<T>(l: LinkedList<T>, s: seq<nat>, k: int, r: LinkedList<T>, i: int)
    requires RemovedAt(l, s, k, r) && 0 <= i && i + 2 < |s|
    ensures var s' := SeqSpec.RemoveAt(s, k);
            r.nodes[s'[i]].next == Some(s'[i + 1]) && r.nodes[s'[i + 1]].prev == Some(s'[i])
  {
    if i + 1 < k {
      RemoveNode(l, s, k, r, i);
      RemoveNode(l, s, k, r, i + 1);
      Neighbours(l, s, i);
    } else if i + 1 == k {
      RemoveNode(l, s, k, r, i);
      RemoveNode(l, s, k, r, i + 2);
    } else {
      RemoveNode(l, s, k, r, i + 1);
      RemoveNode(l, s, k, r, i + 2);
      Neighbours(l, s, i + 1);
    }
  }

  lemma RemoveLinked<T>(l: LinkedList<T>, s: seq<nat>, k: int, r: LinkedList<T>)
    requires RemovedAt(l, s, k, r)
    requires Spine(r, SeqSpec.RemoveAt(s, k))
    ensures Linked(r, SeqSpec.RemoveAt(s, k))
  {
    var s' := SeqSpec.RemoveAt(s, k);
    forall i, j | 0 <= i && j == i + 1 && j < |s'|
      ensures r.nodes[s'[i]].next == Some(s'[j]) && r.nodes[s'[j]].prev == Some(s'[i])
    {
      RemovePair(l, s, k, r, i);
    }
  }

  lemma RemoveEnds<T>(l: LinkedList<T>, s: seq<nat>, k: int, r: LinkedList<T>)
    requires RemovedAt(l, s, k, r)
    requires Spine(r, SeqSpec.RemoveAt(s, k))
    ensures Ends(r, SeqSpec.RemoveAt(s, k))
  {
    var s' := SeqSpec.RemoveAt(s, k);
    if |s'| > 0 {
      var a := if k == 0 then 1 else 0;
      var b := if k + 1 == |s| then |s| - 2 else |s| - 1;
      assert s'[0] == s[a] && s'[|s'| - 1] == s[b];
      RemoveNode(l, s, k, r, a);
      RemoveNode(l, s, k, r, b);
      Neighbours(l, s, a);
      Neighbours(l, s, b);
    }
  }

  lemma RemoveElems<T>(l: LinkedList<T>, s: seq<nat>, k: int, r: LinkedList<T>)
    requires RemovedAt(l, s, k, r)
    requires Chain(r, SeqSpec.RemoveAt(s, k))
    ensures Elems(r, SeqSpec.RemoveAt(s, k)) == SeqSpec.RemoveAt(Elems(l, s), k)
  {
    var s' := SeqSpec.RemoveAt(s, k);
    var E' := SeqSpec.RemoveAt(Elems(l, s), k);
    forall i | 0 <= i < |s'| ensures r.nodes[s'[i]].elem == E'[i] {
      RemoveElem(l, s, k, r, i);
    }
  }

  /** The element at position i of the shortened spine. */
  lemma RemoveElem<T>(l: LinkedList<T>, s: seq<nat>, k: int, r: LinkedList<T>, i: int)
    requires RemovedAt(l, s, k, r) && 0 <= i < |s| - 1
    ensures var p := if i < k then i else i + 1;
            SeqSpec.RemoveAt(s, k)[i] == s[p] && r.nodes[s[p]].elem == l.nodes[s[p]].elem
  {
    RemoveNode(l, s, k, r, if i < k then i else i + 1);
  }

  /** Unlinking the node at position k removes position k of the elements. */
  lemma RemoveChain<T>(l: LinkedList<T>, s: seq<nat>, k: int, r: LinkedList<T>)
    requires RemovedAt(l, s, k, r)
    ensures Chain(r, SeqSpec.RemoveAt(s, k))
    ensures Elems(r, SeqSpec.RemoveAt(s, k)) == SeqSpec.RemoveAt(Elems(l, s), k)
  {
    RemoveSpine(s, k, |l.nodes|);
    RemoveLinked(l, s, k, r);
    RemoveEnds(l, s, k, r);
    RemoveElems(l, s, k, r);
  }

  /** `count` fresh arena indices starting at n: the nodes a run of
      allocations appends. */
  function Fresh(n: nat, count: nat): (r: seq<nat>)
    ensures |r| == count
    ensures forall i :: 0 <= i < count ==> r[i] == n + i
  {
    seq(count, i => n + i)
  }

  /** NewLinkedList: an empty list over an empty arena. */
  function NewLinkedList<T>(): LinkedList<T> {
    LinkedList([], None, None, 0)
  }

  /** A new list has size 0 and nil ends, and the empty spine is the only
      one it is valid over, so it holds no elements. */
  lemma NewLinkedListEmpty<T>(l: LinkedList<T>)
    requires l == NewLinkedList<T>()
    ensures l.size == 0 && l.first.None? && l.last.None?
    ensures forall s: seq<nat> :: Valid(l, s) <==> |s| == 0
    ensures Elems(l, []) == []
  {
  }

  /** AddFirst: a new node for e becomes the first; the old first (if any)
      points back at it, otherwise it is also the last. Never fails. */
  function AddFirst<T>(l: LinkedList<T>, s: seq<nat>, e: T): (r: (LinkedList<T>, Outcome<Errors.Error>))
    requires Valid(l, s)
    ensures Valid(r.0, [|l.nodes|] + s)
    ensures Elems(r.0, [|l.nodes|] + s) == [e] + Elems(l, s)
    ensures r.1 == Pass
  {
    var m := |l.nodes|;
    var nodes := l.nodes + [Node(e, l.first, None)];
    var linked := if l.first.None? then nodes else nodes[l.first.value := WithPrev(nodes[l.first.value], Some(m))];
    var r := LinkedList(linked, Some(m), if l.first.None? then Some(m) else l.last, l.size + 1);
    InsertChain(l, s, e, 0, r);
    assert SeqSpec.InsertAt(s, 0, m) == [m] + s;
    assert SeqSpec.InsertAt(Elems(l, s), 0, e) == [e] + Elems(l, s);
    (r, Pass)
  }

  /** linkLast: a new node for e becomes the last; the old last (if any)
      points forward at it, otherwise it is also the first. */
  function LinkLast<T>(l: LinkedList<T>, s: seq<nat>, e: T): (r: LinkedList<T>)
    requires Valid(l, s)
    ensures Valid(r, s + [|l.nodes|])
    ensures Elems(r, s + [|l.nodes|]) == Elems(l, s) + [e]
  {
    var m := |l.nodes|;
    var nodes := l.nodes + [Node(e, None, l.last)];
    var linked := if l.last.None? then nodes else nodes[l.last.value := WithNext(nodes[l.last.value], Some(m))];
    var r := LinkedList(linked, if l.last.None? then Some(m) else l.first, Some(m), l.size + 1);
    InsertChain(l, s, e, |s|, r);
    assert SeqSpec.InsertAt(s, |s|, m) == s + [m];
    assert SeqSpec.InsertAt(Elems(l, s), |s|, e) == Elems(l, s) + [e];
    r
  }

  /** linkBefore: a new node for e goes between the spine node n (at
      position k) and its prev; with no prev it becomes the first. */
  function LinkBefore<T>(l: LinkedList<T>, s: seq<nat>, e: T, n: nat, k: int): (r: LinkedList<T>)
    requires Valid(l, s) && 0 <= k < |s| && n == s[k]
    ensures Valid(r, SeqSpec.InsertAt(s, k, |l.nodes|))
    ensures Elems(r, SeqSpec.InsertAt(s, k, |l.nodes|)) == SeqSpec.InsertAt(Elems(l, s), k, e)
  {
    Neighbours(l, s, k);
    var m := |l.nodes|;
    var prev := l.nodes[n].prev;
    var nodes := (l.nodes + [Node(e, Some(n), prev)])[n := WithPrev(l.nodes[n], Some(m))];
    var linked := if prev.None? then nodes else nodes[prev.value := WithNext(nodes[prev.value], Some(m))];
    var r := LinkedList(linked, if prev.None? then Some(m) else l.first, l.last, l.size + 1);
    assert k > 0 ==> s[k - 1] != n;
    InsertChain(l, s, e, k, r);
    r
  }

  /** The spine node x (at position k) is bypassed: its prev and next
      point at each other, or first/last move past it, and the counter
      becomes `size`. unLink also clears x's own links (`clear`);
      RemoveFirst and RemoveLast leave them. */
  function Bypass<T>(l: LinkedList<T>, s: seq<nat>, x: nat, k: int, size: int, clear: bool): (r: LinkedList<T>)
    requires Valid(l, s) && 0 <= k < |s| && x == s[k]
    ensures Chain(r, SeqSpec.RemoveAt(s, k)) && r.size == size
    ensures Elems(r, SeqSpec.RemoveAt(s, k)) == SeqSpec.RemoveAt(Elems(l, s), k)
  {
    Neighbours(l, s, k);
    var prev := l.nodes[x].prev;
    var next := l.nodes[x].next;
    var a := if prev.None? then l.nodes else l.nodes[prev.value := WithNext(l.nodes[prev.value], next)];
    var b := if next.None? then a else a[next.value := WithPrev(a[next.value], prev)];
    var c := if clear then b[x := Node(b[x].elem, None, None)] else b;
    var r := LinkedList(c, if prev.None? then next else l.first, if next.None? then prev else l.last, size);
    assert k > 0 ==> s[k - 1] != x;
    assert k + 1 < |s| ==> s[k + 1] != x;
    assert k > 0 && k + 1 < |s| ==> s[k - 1] != s[k + 1];
    RemoveChain(l, s, k, r);
    r
  }

  /** unLink: bypasses the spine node x (at position k) and clears its
      links; returns x's element. */
  function UnLink<T>(l: LinkedList<T>, s: seq<nat>, x: nat, k: int): (r: (LinkedList<T>, T))
    requires Valid(l, s) && 0 <= k < |s| && x == s[k]
    ensures Valid(r.0, SeqSpec.RemoveAt(s, k))
    ensures Elems(r.0, SeqSpec.RemoveAt(s, k)) == SeqSpec.RemoveAt(Elems(l, s), k)
    ensures r.1 == Elems(l, s)[k]
  {
    (Bypass(l, s, x, k, l.size - 1, true), l.nodes[x].elem)
  }

  /** The first node leaves the chain (its next becomes first and loses its
      prev); the size is left to the caller. */
  function DropFirst<T>(l: LinkedList<T>, s: seq<nat>, size: int): (r: LinkedList<T>)
    requires Valid(l, s) && |s| > 0
    ensures Chain(r, s[1..]) && r.size == size
    ensures Elems(r, s[1..]) == Elems(l, s)[1..]
  {
    var r := Bypass(l, s, l.first.value, 0, size, false);
    assert SeqSpec.RemoveAt(s, 0) == s[1..];
    assert SeqSpec.RemoveAt(Elems(l, s), 0) == Elems(l, s)[1..];
    r
  }

  /** The last node leaves the chain (its prev becomes last and loses its
      next); the size is left to the caller. */
  function DropLast<T>(l: LinkedList<T>, s: seq<nat>, size: int): (r: LinkedList<T>)
    requires Valid(l, s) && |s| > 0
    ensures Chain(r, s[..|s| - 1]) && r.size == size
    ensures Elems(r, s[..|s| - 1]) == Elems(l, s)[..|s| - 1]
  {
    var r := Bypass(l, s, l.last.value, |s| - 1, size, false);
    assert SeqSpec.RemoveAt(s, |s| - 1) == s[..|s| - 1];
    assert SeqSpec.RemoveAt(Elems(l, s), |s| - 1) == Elems(l, s)[..|s| - 1];
    r
  }

  /** RemoveFirst: NoSuchElement on an empty list; otherwise the first
      element is removed and returned. */
  function RemoveFirst<T>(l: LinkedList<T>, s: seq<nat>): (r: (LinkedList<T>, Result<T, Errors.Error>))
    requires Valid(l, s)
    ensures |s| == 0 ==> r == (l, Err(Errors.NoSuchElement))
    ensures |s| > 0 ==> && Valid(r.0, s[1..])
                        && Elems(r.0, s[1..]) == Elems(l, s)[1..]
                        && r.1 == Ok(Elems(l, s)[0])
  {
    if l.first.None? then (l, Err(Errors.NoSuchElement))
    else (DropFirst(l, s, l.size - 1), Ok(l.nodes[l.first.value].elem))
  }

  /** RemoveLast as the Go code has it: the last element is unlinked and
      returned, but the size counter is not decremented. */
  function RemoveLastAsWritten<T>(l: LinkedList<T>, s: seq<nat>): (r: (LinkedList<T>, Result<T, Errors.Error>))
    requires Valid(l, s)
    ensures |s| == 0 ==> r == (l, Err(Errors.NoSuchElement))
    ensures |s| > 0 ==> && Chain(r.0, s[..|s| - 1])
                        && r.0.size == l.size
                        && Elems(r.0, s[..|s| - 1]) == Elems(l, s)[..|s| - 1]
                        && r.1 == Ok(Elems(l, s)[|s| - 1])
  {
    if l.last.None? then (l, Err(Errors.NoSuchElement))
    else (DropLast(l, s, l.size), Ok(l.nodes[l.last.value].elem))
  }

  /** RemoveLast as intended: as written, plus the size decrement. */
  function RemoveLast<T>(l: LinkedList<T>, s: seq<nat>): (r: (LinkedList<T>, Result<T, Errors.Error>))
    requires Valid(l, s)
    ensures |s| == 0 ==> r == (l, Err(Errors.NoSuchElement))
    ensures |s| > 0 ==> && Valid(r.0, s[..|s| - 1])
                        && Elems(r.0, s[..|s| - 1]) == Elems(l, s)[..|s| - 1]
                        && r.1 == Ok(Elems(l, s)[|s| - 1])
  {
    if l.last.None? then (l, Err(Errors.NoSuchElement))
    else (DropLast(l, s, l.size - 1), Ok(l.nodes[l.last.value].elem))
  }

  /** After the Go RemoveLast a one-element list keeps size 1 with first
      and last nil, which EmptyIffNil rules out for every valid list. */
  lemma RemoveLastKeepsSize<T>(e: T)
    ensures var (l, _) := AddLast(NewLinkedList<T>(), [], e);
            var (r, x) := RemoveLastAsWritten(l, [0]);
            && x == Ok(e)
            && r.size == 1 && r.first.None? && r.last.None?
  {
    var (l, _) := AddLast(NewLinkedList<T>(), [], e);
    assert Elems(l, [0]) == [e];
  }

  /** GetFirst (and Element): the head, or NoSuchElement when empty. */
  function GetFirst<T>(l: LinkedList<T>, s: seq<nat>): (r: Result<T, Errors.Error>)
    requires Valid(l, s)
    ensures r == if |s| == 0 then Err(Errors.NoSuchElement) else Ok(Elems(l, s)[0])
  {
    if l.first.None? then Err(Errors.NoSuchElement) else Ok(l.nodes[l.first.value].elem)
  }

  /** GetLast: the tail, or NoSuchElement when empty. */
  function GetLast<T>(l: LinkedList<T>, s: seq<nat>): (r: Result<T, Errors.Error>)
    requires Valid(l, s)
    ensures r == if |s| == 0 then Err(Errors.NoSuchElement) else Ok(Elems(l, s)[|s| - 1])
  {
    if l.last.None? then Err(Errors.NoSuchElement) else Ok(l.nodes[l.last.value].elem)
  }

  function Element<T>(l: LinkedList<T>, s: seq<nat>): (r: Result<T, Errors.Error>)
    requires Valid(l, s)
    ensures r == if |s| == 0 then Err(Errors.NoSuchElement) else Ok(Elems(l, s)[0])
  {
    GetFirst(l, s)
  }

  /** Peek: the head, or nil (None) when empty. */
  function Peek<T>(l: LinkedList<T>, s: seq<nat>): (r: Option<T>)
    requires Valid(l, s)
    ensures r == if |s| == 0 then None else Some(Elems(l, s)[0])
  {
    if l.first.None? then None else Some(l.nodes[l.first.value].elem)
  }

  /** Poll: removes and returns the head, or nil (None) when empty. */
  function Poll<T>(l: LinkedList<T>, s: seq<nat>): (r: (LinkedList<T>, Option<T>))
    requires Valid(l, s)
    ensures |s| == 0 ==> r == (l, None)
    ensures |s| > 0 ==> && Valid(r.0, s[1..])
                        && Elems(r.0, s[1..]) == Elems(l, s)[1..]
                        && r.1 == Some(Elems(l, s)[0])
  {
    if l.first.None? then (l, None)
    else
      var elem := l.nodes[l.first.value].elem;
      UnLinkFirst(l, s);
      (UnLink(l, s, l.first.value, 0).0, Some(elem))
  }

  /** Unlinking the head node is dropping the first spine position. */
  lemma UnLinkFirst<T>(l: LinkedList<T>, s: seq<nat>)
    requires Valid(l, s) && l.first.Some?
    ensures |s| > 0 && l.first.value == s[0]
    ensures var r := UnLink(l, s, s[0], 0).0;
            Valid(r, s[1..]) && Elems(r, s[1..]) == Elems(l, s)[1..]
  {
    ghost var E := Elems(l, s);
    assert SeqSpec.RemoveAt(s, 0) == s[1..];
    assert SeqSpec.RemoveAt(E, 0) == E[1..];
  }

  /** Delete: RemoveFirst under the queue's name. */
  function Delete<T>(l: LinkedList<T>, s: seq<nat>): (r: (LinkedList<T>, Result<T, Errors.Error>))
    requires Valid(l, s)
    ensures |s| == 0 ==> r == (l, Err(Errors.NoSuchElement))
    ensures |s| > 0 ==> Valid(r.0, s[1..]) && Elems(r.0, s[1..]) == Elems(l, s)[1..] && r.1 == Ok(Elems(l, s)[0])
  {
    RemoveFirst(l, s)
  }

  /** Push: the stack's push is AddFirst. */
  function Push<T>(l: LinkedList<T>, s: seq<nat>, e: T): (r: (LinkedList<T>, Outcome<Errors.Error>))
    requires Valid(l, s)
    ensures Valid(r.0, [|l.nodes|] + s) && Elems(r.0, [|l.nodes|] + s) == [e] + Elems(l, s) && r.1 == Pass
  {
    AddFirst(l, s, e)
  }

  /** Pop as the Go code has it: it calls RemoveLast, so it takes the
      element Push put down first, and inherits RemoveLast's size bug. */
  function PopAsWritten<T>(l: LinkedList<T>, s: seq<nat>): (r: (LinkedList<T>, Result<T, Errors.Error>))
    requires Valid(l, s)
    ensures |s| == 0 ==> r == (l, Err(Errors.NoSuchElement))
    ensures |s| > 0 ==> r.1 == Ok(Elems(l, s)[|s| - 1]) && r.0.size == l.size
  {
    RemoveLastAsWritten(l, s)
  }

  /** Pop as documented: removes and returns the first element, the one the
      last Push put down. */
  function Pop<T>(l: LinkedList<T>, s: seq<nat>): (r: (LinkedList<T>, Result<T, Errors.Error>))
    requires Valid(l, s)
    ensures |s| == 0 ==> r == (l, Err(Errors.NoSuchElement))
    ensures |s| > 0 ==> Valid(r.0, s[1..]) && Elems(r.0, s[1..]) == Elems(l, s)[1..] && r.1 == Ok(Elems(l, s)[0])
  {
    RemoveFirst(l, s)
  }

  /** Push then Pop returns the pushed element and restores the list. */
  lemma PushPopRoundTrip<T>(l: LinkedList<T>, s: seq<nat>, e: T)
    requires Valid(l, s)
    ensures var (l1, _) := Push(l, s, e);
            var (l2, x) := Pop(l1, [|l.nodes|] + s);
            x == Ok(e) && Valid(l2, s) && Elems(l2, s) == Elems(l, s)
  {
    var (l1, _) := Push(l, s, e);
    assert ([|l.nodes|] + s)[1..] == s;
    assert ([e] + Elems(l, s))[1..] == Elems(l, s);
  }

  /** Push a, Push b, Pop: the Go Pop returns a where a stack returns b. */
  lemma PopTakesBottom<T>(a: T, b: T)
    ensures var (l1, _) := Push(NewLinkedList<T>(), [], a);
            var (l2, _) := Push(l1, [0], b);
            && PopAsWritten(l2, [1, 0]).1 == Ok(a)
            && Pop(l2, [1, 0]).1 == Ok(b)
  {
    var (l1, _) := Push(NewLinkedList<T>(), [], a);
    assert Elems(l1, [0]) == [a];
    var (l2, _) := Push(l1, [0], b);
    assert [1] + [0] == [1, 0];
    assert Elems(l2, [1, 0]) == [b, a];
  }

  /** AddLast: linkLast; the Go error result is always nil. */
  function AddLast<T>(l: LinkedList<T>, s: seq<nat>, e: T): (r: (LinkedList<T>, Outcome<Errors.Error>))
    requires Valid(l, s)
    ensures Valid(r.0, s + [|l.nodes|]) && Elems(r.0, s + [|l.nodes|]) == Elems(l, s) + [e] && r.1 == Pass
  {
    (LinkLast(l, s, e), Pass)
  }

  /** Add (and Offer): linkLast, reporting true. */
  function Add<T>(l: LinkedList<T>, s: seq<nat>, e: T): (r: (LinkedList<T>, bool))
    requires Valid(l, s)
    ensures Valid(r.0, s + [|l.nodes|]) && Elems(r.0, s + [|l.nodes|]) == Elems(l, s) + [e] && r.1
  {
    (LinkLast(l, s, e), true)
  }

  function Offer<T>(l: LinkedList<T>, s: seq<nat>, e: T): (r: (LinkedList<T>, bool))
    requires Valid(l, s)
    ensures Valid(r.0, s + [|l.nodes|]) && Elems(r.0, s + [|l.nodes|]) == Elems(l, s) + [e] && r.1
  {
    Add(l, s, e)
  }

  /** Add then RemoveLast returns the added element and restores the list. */
  lemma AddRemoveLastRoundTrip<T>(l: LinkedList<T>, s: seq<nat>, e: T)
    requires Valid(l, s)
    ensures var (l1, _) := Add(l, s, e);
            var (l2, x) := RemoveLast(l1, s + [|l.nodes|]);
            x == Ok(e) && Valid(l2, s) && Elems(l2, s) == Elems(l, s)
  {
    assert (s + [|l.nodes|])[..|s|] == s;
    assert (Elems(l, s) + [e])[..|s|] == Elems(l, s);
  }

  /** Size: the counter, which under the invariant is the element count. */
  function Size<T>(l: LinkedList<T>, s: seq<nat>): (r: int)
    ensures Valid(l, s) ==> r == |Elems(l, s)|
  {
    l.size
  }

  /** IsEmpty: the counter is 0, i.e. there are no elements. */
  function IsEmpty<T>(l: LinkedList<T>, s: seq<nat>): (r: bool)
    ensures Valid(l, s) ==> (r <==> Elems(l, s) == [])
  {
    l.size == 0
  }

  /** Clear: first and last become nil and the size 0. The Go loop starts at
      the last node, whose next is nil, so only that node's links are
      cleared; the rest stay in the arena, unreachable. */
  function Clear<T>(l: LinkedList<T>, s: seq<nat>): (r: (LinkedList<T>, Outcome<Errors.Error>))
    requires Valid(l, s)
    ensures Valid(r.0, []) && Elems(r.0, []) == [] && r.1 == Pass
    ensures |r.0.nodes| == |l.nodes|
    ensures forall i :: 0 <= i < |s| - 1 ==> r.0.nodes[s[i]] == l.nodes[s[i]]
  {
    var nodes := if l.last.None? then l.nodes
                 else l.nodes[l.last.value := Node(l.nodes[l.last.value].elem, None, None)];
    (LinkedList(nodes, None, None, 0), Pass)
  }

  /** isPositionIndex: index is a valid insertion point. */
  function IsPositionIndex<T>(l: LinkedList<T>, index: int): (r: bool)
    ensures r <==> 0 <= index <= l.size
  {
    index >= 0 && index <= l.size
  }

  /** checkElementIndex: nil for an element index, else IndexOutOfBound. */
  function CheckElementIndex<T>(l: LinkedList<T>, index: int): (r: Outcome<Errors.Error>)
    ensures r == if 0 <= index < l.size then Pass else Fail(Errors.IndexOutOfBound)
  {
    if index >= 0 && index < l.size then Pass else Fail(Errors.IndexOutOfBound)
  }

  /** checkPositionIndex: nil for an insertion point, else IndexOutOfBound. */
  function CheckPositionIndex<T>(l: LinkedList<T>, index: int): (r: Outcome<Errors.Error>)
    ensures r == if 0 <= index <= l.size then Pass else Fail(Errors.IndexOutOfBound)
  {
    if index >= 0 && index <= l.size then Pass else Fail(Errors.IndexOutOfBound)
  }

  /** getNode: the node at an element index, walked to from the first node
      when the index is in the front half (index < size >> 1, i.e. size / 2
      for a non-negative size) and from the last node otherwise. */
  method GetNode<T>(l: LinkedList<T>, s: seq<nat>, index: int) returns (n: nat)
    requires Valid(l, s) && 0 <= index < l.size
    ensures n == s[index]
  {
    if index < l.size / 2 {
      n := l.first.value;
      var i := 0;
      while i < index
        invariant 0 <= i <= index
        invariant n == s[i]
      {
        Neighbours(l, s, i);
        n := l.nodes[n].next.value;
        i := i + 1;
      }
    } else {
      n := l.last.value;
      var i := l.size - 1;
      while i > index
        invariant index <= i <= l.size - 1
        invariant n == s[i]
      {
        Neighbours(l, s, i);
        n := l.nodes[n].prev.value;
        i := i - 1;
      }
    }
  }

  /** Get: the element at index, IndexOutOfBound outside [0, size). */
  method Get<T>(l: LinkedList<T>, s: seq<nat>, index: int) returns (r: Result<T, Errors.Error>)
    requires Valid(l, s)
    ensures r == if 0 <= index < |s| then Ok(Elems(l, s)[index]) else Err(Errors.IndexOutOfBound)
  {
    var err := CheckElementIndex(l, index);
    if err.Fail? {
      return Err(err.error);
    }
    var n := GetNode(l, s, index);
    return Ok(l.nodes[n].elem);
  }

  /** Set: replaces the element at index and returns the old one;
      IndexOutOfBound and no change outside [0, size). */
  method Set<T>(l: LinkedList<T>, s: seq<nat>, index: int, e: T) returns (l': LinkedList<T>, r: Result<T, Errors.Error>)
    requires Valid(l, s)
    ensures Valid(l', s)
    ensures !(0 <= index < |s|) ==> l' == l && r == Err(Errors.IndexOutOfBound)
    ensures 0 <= index < |s| ==> r == Ok(Elems(l, s)[index]) && Elems(l', s) == Elems(l, s)[index := e]
  {
    var err := CheckElementIndex(l, index);
    if err.Fail? {
      return l, Err(err.error);
    }
    var n := GetNode(l, s, index);
    var oldElement := l.nodes[n].elem;
    l' := LinkedList(l.nodes[n := Node(e, l.nodes[n].next, l.nodes[n].prev)], l.first, l.last, l.size);
    assert Chain(l', s);
    forall i | 0 <= i < |s| ensures Elems(l', s)[i] == Elems(l, s)[index := e][i] {
      if i != index {
        assert s[i] != s[index];
      }
    }
    return l', Ok(oldElement);
  }

  /** AddIndex: inserts e at index in [0, size] (at the end through
      AddLast, elsewhere before the node now there); IndexOutOfBound and
      no change otherwise. */
  method AddIndex<T>(l: LinkedList<T>, s: seq<nat>, index: int, e: T) returns (l': LinkedList<T>, err: Outcome<Errors.Error>)
    requires Valid(l, s)
    ensures !(0 <= index <= |s|) ==> l' == l && err == Fail(Errors.IndexOutOfBound)
    ensures 0 <= index <= |s| ==>
              && err == Pass
              && Valid(l', SeqSpec.InsertAt(s, index, |l.nodes|))
              && Elems(l', SeqSpec.InsertAt(s, index, |l.nodes|)) == SeqSpec.InsertAt(Elems(l, s), index, e)
  {
    err := CheckPositionIndex(l, index);
    if err.Fail? {
      return l, err;
    }
    if index == l.size {
      var (r, _) := AddLast(l, s, e);
      assert SeqSpec.InsertAt(s, index, |l.nodes|) == s + [|l.nodes|];
      assert SeqSpec.InsertAt(Elems(l, s), index, e) == Elems(l, s) + [e];
      return r, Pass;
    }
    var n := GetNode(l, s, index);
    l' := LinkBefore(l, s, e, n, index);
    return l', Pass;
  }

  /** RemoveIndex: removes and returns the element at index;
      IndexOutOfBound and no change outside [0, size). */
  method RemoveIndex<T>(l: LinkedList<T>, s: seq<nat>, index: int) returns (l': LinkedList<T>, r: Result<T, Errors.Error>)
    requires Valid(l, s)
    ensures !(0 <= index < |s|) ==> l' == l && r == Err(Errors.IndexOutOfBound)
    ensures 0 <= index < |s| ==>
              && r == Ok(Elems(l, s)[index])
              && Valid(l', SeqSpec.RemoveAt(s, index))
              && Elems(l', SeqSpec.RemoveAt(s, index)) == SeqSpec.RemoveAt(Elems(l, s), index)
  {
    var err := CheckElementIndex(l, index);
    if err.Fail? {
      return l, Err(err.error);
    }
    var n := GetNode(l, s, index);
    var (r', elem) := UnLink(l, s, n, index);
    return r', Ok(elem);
  }

  /** Index: the position of the first node holding e, walking from the
      first node, or -1. */
  method Index<T(==)>(l: LinkedList<T>, s: seq<nat>, e: T) returns (index: int)
    requires Valid(l, s)
    ensures index == SeqSpec.IndexOf(Elems(l, s), e)
  {
    ghost var E := Elems(l, s);
    index := 0;
    var x := l.first;
    while x.Some?
      invariant 0 <= index <= |s|
      invariant x == if index < |s| then Some(s[index]) else None
      invariant forall j :: 0 <= j < index ==> E[j] != e
      decreases |s| - index
    {
      Neighbours(l, s, index);
      if l.nodes[x.value].elem == e {
        SeqSpec.IndexOfFound(E, e, index);
        return index;
      }
      index := index + 1;
      x := l.nodes[x.value].next;
    }
    return -1;
  }

  /** LastIndex: the position of the last node holding e, walking back
      from the last node, or -1. */
  method LastIndex<T(==)>(l: LinkedList<T>, s: seq<nat>, e: T) returns (index: int)
    requires Valid(l, s)
    ensures index == SeqSpec.LastIndexOf(Elems(l, s), e)
  {
    ghost var E := Elems(l, s);
    index := l.size - 1;
    var x := l.last;
    while x.Some?
      invariant -1 <= index < |s|
      invariant x == if index >= 0 then Some(s[index]) else None
      invariant forall j :: index < j < |s| ==> E[j] != e
      decreases index
    {
      Neighbours(l, s, index);
      if l.nodes[x.value].elem == e {
        SeqSpec.LastIndexOfFound(E, e, index);
        return index;
      }
      index := index - 1;
      x := l.nodes[x.value].prev;
    }
  }

  /** Contains: Index is not -1. */
  method Contains<T(==)>(l: LinkedList<T>, s: seq<nat>, e: T) returns (r: bool)
    requires Valid(l, s)
    ensures r <==> e in Elems(l, s)
  {
    var index := Index(l, s, e);
    r := index >= 0;
  }

  /** The spine after removing position k, or s itself when k is -1. */
  ghost function Without(s: seq<nat>, k: int): seq<nat>
    requires -1 <= k < |s|
  {
    if k < 0 then s else SeqSpec.RemoveAt(s, k)
  }

  /** Remove (and RemoveFirstOccurrence): unlinks the first node holding e
      and reports whether there was one. */
  method Remove<T(==)>(l: LinkedList<T>, s: seq<nat>, e: T) returns (l': LinkedList<T>, found: bool)
    requires Valid(l, s)
    ensures found <==> e in Elems(l, s)
    ensures !found ==> l' == l
    ensures Valid(l', Without(s, SeqSpec.IndexOf(Elems(l, s), e)))
    ensures Elems(l', Without(s, SeqSpec.IndexOf(Elems(l, s), e))) == SeqSpec.RemoveFirstOccurrence(Elems(l, s), e)
  {
    ghost var E := Elems(l, s);
    var index := 0;
    var x := l.first;
    while x.Some?
      invariant 0 <= index <= |s|
      invariant x == if index < |s| then Some(s[index]) else None
      invariant forall j :: 0 <= j < index ==> E[j] != e
      decreases |s| - index
    {
      Neighbours(l, s, index);
      if l.nodes[x.value].elem == e {
        SeqSpec.IndexOfFound(E, e, index);
        var (r, _) := UnLink(l, s, x.value, index);
        return r, true;
      }
      index := index + 1;
      x := l.nodes[x.value].next;
    }
    return l, false;
  }

  method RemoveFirstOccurrence<T(==)>(l: LinkedList<T>, s: seq<nat>, e: T) returns (l': LinkedList<T>, found: bool)
    requires Valid(l, s)
    ensures found <==> e in Elems(l, s)
    ensures !found ==> l' == l
    ensures Valid(l', Without(s, SeqSpec.IndexOf(Elems(l, s), e)))
    ensures Elems(l', Without(s, SeqSpec.IndexOf(Elems(l, s), e))) == SeqSpec.RemoveFirstOccurrence(Elems(l, s), e)
  {
    l', found := Remove(l, s, e);
  }

  /** RemoveLastOccurrence: unlinks the last node holding e, walking back
      from the last node, and reports whether there was one. */
  method RemoveLastOccurrence<T(==)>(l: LinkedList<T>, s: seq<nat>, e: T) returns (l': LinkedList<T>, found: bool)
    requires Valid(l, s)
    ensures found <==> e in Elems(l, s)
    ensures !found ==> l' == l
    ensures Valid(l', Without(s, SeqSpec.LastIndexOf(Elems(l, s), e)))
    ensures Elems(l', Without(s, SeqSpec.LastIndexOf(Elems(l, s), e))) == SeqSpec.RemoveLastOccurrence(Elems(l, s), e)
  {
    ghost var E := Elems(l, s);
    var index := |s| - 1;
    var x := l.last;
    while x.Some?
      invariant -1 <= index < |s|
      invariant x == if index >= 0 then Some(s[index]) else None
      invariant forall j :: index < j < |s| ==> E[j] != e
      decreases index
    {
      Neighbours(l, s, index);
      if l.nodes[x.value].elem == e {
        SeqSpec.LastIndexOfFound(E, e, index);
        var (r, _) := UnLink(l, s, x.value, index);
        return r, true;
      }
      index := index - 1;
      x := l.nodes[x.value].prev;
    }
    return l, false;
  }

  /** ContainsAll: every element of c (in c's order) is in the list. */
  method ContainsAll<T(==)>(l: LinkedList<T>, s: seq<nat>, c: seq<T>) returns (r: bool)
    requires Valid(l, s)
    ensures r <==> forall x :: x in c ==> x in Elems(l, s)
  {
    var i := 0;
    while i < |c|
      invariant 0 <= i <= |c|
      invariant forall j :: 0 <= j < i ==> c[j] in Elems(l, s)
    {
      var contains := Contains(l, s, c[i]);
      if !contains {
        return false;
      }
      i := i + 1;
    }
    return true;
  }

  /** AddAll: c's elements (read before any is added, so c may be this
      list) are added at the end one by one; true iff c is non-empty. */
  method AddAll<T>(l: LinkedList<T>, s: seq<nat>, c: seq<T>) returns (l': LinkedList<T>, modified: bool)
    requires Valid(l, s)
    ensures Valid(l', s + Fresh(|l.nodes|, |c|))
    ensures Elems(l', s + Fresh(|l.nodes|, |c|)) == Elems(l, s) + c
    ensures modified <==> |c| > 0
  {
    var n, E := |l.nodes|, Elems(l, s);
    var t: seq<nat> := s;
    l', modified := l, false;
    AppendedNothing(l, s, c);
    var i := 0;
    while i < |c|
      invariant Appended(n, s, E, c, i, l', t)
      invariant modified <==> i > 0
    {
      var add;
      l', add := AddNext(n, s, E, c, i, l', t);
      t := t + [n + i];
      if add {
        modified := true;
      }
      i := i + 1;
    }
    AppendedAll(n, s, E, c, l', t);
  }

  /** The AddAll loop after i turns over a list of n nodes with spine s and
      elements E: the list is valid with c[..i] appended to E and the i new
      nodes appended to s. */
  ghost predicate Appended<T>(n: nat, s: seq<nat>, E: seq<T>, c: seq<T>, i: int, l': LinkedList<T>, t: seq<nat>) {
    && 0 <= i <= |c| && |l'.nodes| == n + i
    && t == s + Fresh(n, i)
    && Valid(l', t) && Elems(l', t) == E + c[..i]
  }

  lemma AppendedNothing<T>(l: LinkedList<T>, s: seq<nat>, c: seq<T>)
    requires Valid(l, s)
    ensures Appended(|l.nodes|, s, Elems(l, s), c, 0, l, s)
  {
    assert s + Fresh(|l.nodes|, 0) == s;
    assert Elems(l, s) + c[..0] == Elems(l, s);
  }

  /** The body of the AddAll loop: Add appends c[i] and reports true. */
  method AddNext<T>(n: nat, s: seq<nat>, E: seq<T>, c: seq<T>, i: int, l: LinkedList<T>, t: seq<nat>) returns (l': LinkedList<T>, add: bool)
    requires Appended(n, s, E, c, i, l, t) && i < |c|
    ensures Appended(n, s, E, c, i + 1, l', t + [n + i]) && add
  {
    AppendedStep(n, s, E, c, i, l, t);
    l', add := Add(l, t, c[i]).0, Add(l, t, c[i]).1;
  }

  /** One turn of the AddAll loop: Add appends c[i] behind the i-th new node. */
  lemma AppendedStep<T>(n: nat, s: seq<nat>, E: seq<T>, c: seq<T>, i: int, l': LinkedList<T>, t: seq<nat>)
    requires Appended(n, s, E, c, i, l', t) && i < |c|
    ensures Appended(n, s, E, c, i + 1, Add(l', t, c[i]).0, t + [n + i])
  {
    SeqSpec.AppendTake(E, c, i);
    FreshStep(s, n, i);
  }

  lemma FreshStep(s: seq<nat>, n: nat, i: nat)
    ensures s + Fresh(n, i) + [n + i] == s + Fresh(n, i + 1)
  {
    assert (s + Fresh(n, i) + [n + i])[|s| + i] == n + i;
  }

  lemma AppendedAll<T>(n: nat, s: seq<nat>, E: seq<T>, c: seq<T>, l': LinkedList<T>, t: seq<nat>)
    requires Appended(n, s, E, c, |c|, l', t)
    ensures Valid(l', s + Fresh(n, |c|)) && Elems(l', s + Fresh(n, |c|)) == E + c
  {
    assert c[..|c|] == c;
  }

  /** The list the AddAllIndex loop leaves when it stops: the last node it
      linked (prev) and the node it inserts before (p) point at each other,
      or prev becomes last when p is nil. */
  function Close<T>(nodes: seq<Node<T>>, first: Option<nat>, last: Option<nat>, prev: Option<nat>, p: Option<nat>, size: int): LinkedList<T>
    requires prev.Some? ==> prev.value < |nodes|
    requires p.Some? ==> p.value < |nodes|
  {
    if p.None? then LinkedList(nodes, first, prev, size)
    else
      var linked := if prev.None? then nodes else nodes[prev.value := WithNext(nodes[prev.value], p)];
      LinkedList(linked[p.value := WithPrev(linked[p.value], prev)], first, last, size)
  }

  /** Node x of the arena once the AddAllIndex loop has linked c[..i] in
      behind prev0 over arena: the new nodes chain on from prev0,
      the newest one's next still nil, and prev0's next is the first. */
  function RunNode<T>(arena: seq<Node<T>>, c: seq<T>, i: int, prev0: Option<nat>, x: int): Node<T>
    requires 0 <= i <= |c| && 0 <= x < |arena| + i
  {
    if x >= |arena| then
      Node(c[x - |arena|], if x + 1 < |arena| + i then Some(x + 1) else None, if x == |arena| then prev0 else Some(x - 1))
    else if i > 0 && prev0 == Some(x) then WithNext(arena[x], Some(|arena|))
    else arena[x]
  }

  /** The arena after i turns of the AddAllIndex loop. */
  ghost predicate Run<T>(arena: seq<Node<T>>, c: seq<T>, i: int, prev0: Option<nat>, nodes: seq<Node<T>>) {
    && 0 <= i <= |c| && |nodes| == |arena| + i
    && forall x :: 0 <= x < |nodes| ==> nodes[x] == RunNode(arena, c, i, prev0, x)
  }

  /** One turn of the loop: a node for c[i] is appended behind prev, the
      newest node so far (prev0 before the first turn). */
  lemma RunStep<T>(arena: seq<Node<T>>, c: seq<T>, i: int, prev0: Option<nat>, nodes: seq<Node<T>>, prev: Option<nat>)
    requires Run(arena, c, i, prev0, nodes) && i < |c|
    requires prev0.Some? ==> prev0.value < |arena|
    requires prev == if i == 0 then prev0 else Some(|arena| + i - 1)
    ensures var added := nodes + [Node(c[i], None, prev)];
            Run(arena, c, i + 1, prev0, if prev.None? then added else added[prev.value := WithNext(added[prev.value], Some(|nodes|))])
  {
    var added := nodes + [Node(c[i], None, prev)];
    var r := if prev.None? then added else added[prev.value := WithNext(added[prev.value], Some(|nodes|))];
    forall x | 0 <= x < |r| ensures r[x] == RunNode(arena, c, i + 1, prev0, x) {
      if x < |nodes| {
        assert added[x] == RunNode(arena, c, i, prev0, x);
      }
    }
  }

  /** The arena after the run c is linked in at spine position k: the new
      nodes sit at the arena's end in order, between positions k-1 and k,
      those two point at the run's ends, and no other node changes. */
  ghost predicate SplicedAt<T>(l: LinkedList<T>, s: seq<nat>, c: seq<T>, k: int, r: LinkedList<T>) {
    && Chain(l, s) && 0 <= k <= |s| && |c| > 0
    && |r.nodes| == |l.nodes| + |c|
    && (forall x :: |l.nodes| <= x < |r.nodes| ==>
          r.nodes[x] == Node(c[x - |l.nodes|],
                             if x + 1 < |r.nodes| then Some(x + 1) else if k < |s| then Some(s[k]) else None,
                             if x > |l.nodes| then Some(x - 1) else if k > 0 then Some(s[k - 1]) else None))
    && (k < |s| ==> r.nodes[s[k]] == WithPrev(l.nodes[s[k]], Some(|r.nodes| - 1)))
    && (k > 0 ==> r.nodes[s[k - 1]] == WithNext(l.nodes[s[k - 1]], Some(|l.nodes|)))
    && (forall j :: 0 <= j < |l.nodes| && (k == |s| || j != s[k]) && (k == 0 || j != s[k - 1]) ==> r.nodes[j] == l.nodes[j])
    && r.first == (if k == 0 then Some(|l.nodes|) else l.first)
    && r.last == (if k == |s| then Some(|r.nodes| - 1) else l.last)
  }

  /** The arena once the gap after the last turn is closed, node by node:
      the run joins p, p points back at the run's end, and the rest is
      untouched. */
  lemma CloseRun<T>(arena: seq<Node<T>>, c: seq<T>, prev0: Option<nat>, p: Option<nat>, nodes: seq<Node<T>>, first: Option<nat>, last: Option<nat>, size: int)
    requires |c| > 0 && Run(arena, c, |c|, prev0, nodes)
    requires prev0.Some? ==> prev0.value < |arena|
    requires p.Some? ==> p.value < |arena|
    requires prev0.Some? && p.Some? ==> prev0 != p
    ensures var r := Close(nodes, first, last, Some(|arena| + |c| - 1), p, size);
            && Closed(arena, c, prev0, p, r.nodes)
            && r.first == first
            && r.last == (if p.None? then Some(|arena| + |c| - 1) else last)
  {
    var newest := Some(|arena| + |c| - 1);
    var r := Close(nodes, first, last, newest, p, size);
    CloseNodes(nodes, first, last, newest, p, size);
    forall x | |arena| <= x < |r.nodes|
      ensures r.nodes[x] == Node(c[x - |arena|], if x + 1 < |r.nodes| then Some(x + 1) else p,
                                 if x > |arena| then Some(x - 1) else prev0)
    {
      assert nodes[x] == RunNode(arena, c, |c|, prev0, x);
    }
    forall j | 0 <= j < |arena| && (p.None? || j != p.value) && (prev0.None? || j != prev0.value) ensures r.nodes[j] == arena[j] {
      assert nodes[j] == RunNode(arena, c, |c|, prev0, j);
    }
    if p.Some? {
      assert nodes[p.value] == RunNode(arena, c, |c|, prev0, p.value);
    }
    if prev0.Some? {
      assert nodes[prev0.value] == RunNode(arena, c, |c|, prev0, prev0.value);
    }
  }

  /** The arena once c is linked in between prev0 and p: the new nodes
      chain from prev0 to p, prev0 and p point at the run's ends, and
      every other node is as it was. */
  ghost predicate Closed<T>(arena: seq<Node<T>>, c: seq<T>, prev0: Option<nat>, p: Option<nat>, nodes: seq<Node<T>>) {
    && |nodes| == |arena| + |c|
    && (forall x :: |arena| <= x < |nodes| ==>
          nodes[x] == Node(c[x - |arena|], if x + 1 < |nodes| then Some(x + 1) else p,
                           if x > |arena| then Some(x - 1) else prev0))
    && (p.Some? && p.value < |arena| ==> nodes[p.value] == WithPrev(arena[p.value], Some(|nodes| - 1)))
    && (prev0.Some? && prev0.value < |arena| ==> nodes[prev0.value] == WithNext(arena[prev0.value], Some(|arena|)))
    && (forall j :: 0 <= j < |arena| && (p.None? || j != p.value) && (prev0.None? || j != prev0.value) ==> nodes[j] == arena[j])
  }

  /** Close changes at most the two nodes it joins. */
  lemma CloseNodes<T>(nodes: seq<Node<T>>, first: Option<nat>, last: Option<nat>, prev: Option<nat>, p: Option<nat>, size: int)
    requires prev.Some? ==> prev.value < |nodes|
    requires p.Some? ==> p.value < |nodes|
    requires prev.Some? && p.Some? ==> prev != p
    ensures var r := Close(nodes, first, last, prev, p, size);
            && |r.nodes| == |nodes|
            && forall x :: 0 <= x < |nodes| ==>
                 r.nodes[x] == if p.Some? && p.value == x then WithPrev(nodes[x], prev)
                               else if p.Some? && prev.Some? && prev.value == x then WithNext(nodes[x], p)
                               else nodes[x]
  {
  }

  /** Closing the gap after the last turn links the run in at index. */
  lemma RunClose<T>(l: LinkedList<T>, s: seq<nat>, index: int, c: seq<T>, prev0: Option<nat>, p: Option<nat>, nodes: seq<Node<T>>, first: Option<nat>)
    requires Valid(l, s) && 0 <= index <= |s| && |c| > 0
    requires prev0 == (if index > 0 then Some(s[index - 1]) else None)
    requires p == (if index < |s| then Some(s[index]) else None)
    requires Run(l.nodes, c, |c|, prev0, nodes)
    requires first == if prev0.None? then Some(|l.nodes|) else l.first
    ensures p.Some? ==> p.value < |nodes|
    ensures SplicedAt(l, s, c, index, Close(nodes, first, l.last, Some(|l.nodes| + |c| - 1), p, l.size + |c|))
  {
    if index > 0 && index < |s| {
      assert s[index - 1] != s[index];
    }
    var r := Close(nodes, first, l.last, Some(|l.nodes| + |c| - 1), p, l.size + |c|);
    CloseRun(l.nodes, c, prev0, p, nodes, first, l.last, l.size + |c|);
    ClosedSpliced(l, s, index, c, prev0, p, r);
  }

  /** Closing the run between positions index - 1 and index of the spine
      splices c in at index. */
  lemma ClosedSpliced<T>(l: LinkedList<T>, s: seq<nat>, index: int, c: seq<T>, prev0: Option<nat>, p: Option<nat>, r: LinkedList<T>)
    requires Valid(l, s) && 0 <= index <= |s| && |c| > 0
    requires prev0 == (if index > 0 then Some(s[index - 1]) else None)
    requires p == (if index < |s| then Some(s[index]) else None)
    requires Closed(l.nodes, c, prev0, p, r.nodes)
    requires r.first == if prev0.None? then Some(|l.nodes|) else l.first
    requires r.last == if p.None? then Some(|l.nodes| + |c| - 1) else l.last
    ensures SplicedAt(l, s, c, index, r)
  {
    forall j | 0 <= j < |l.nodes| && (index == |s| || j != s[index]) && (index == 0 || j != s[index - 1])
      ensures r.nodes[j] == l.nodes[j]
    {
      assert p.None? || j != p.value;
      assert prev0.None? || j != prev0.value;
    }
  }

  /** The spliced spine lists distinct indices of the new arena. */
  lemma SpliceSpine<T>(l: LinkedList<T>, s: seq<nat>, c: seq<T>, k: int, r: LinkedList<T>)
    requires SplicedAt(l, s, c, k, r)
    ensures Spine(r, SeqSpec.InsertAllAt(s, k, Fresh(|l.nodes|, |c|)))
  {
    var n := |l.nodes|;
    var s' := SeqSpec.InsertAllAt(s, k, Fresh(n, |c|));
    forall i | 0 <= i < |s'| ensures s'[i] < |r.nodes| {
      SpliceAt(s, k, n, |c|, i);
    }
    forall i, j | 0 <= i < j < |s'| ensures s'[i] != s'[j] {
      SpliceAt(s, k, n, |c|, i);
      SpliceAt(s, k, n, |c|, j);
      if i < k && j >= k + |c| {
        assert s[i] != s[j - |c|];
      } else if i >= k + |c| {
        assert s[i - |c|] != s[j - |c|];
      }
    }
  }

  /** What happened to the node at old spine position q. */
  lemma SpliceNode<T>(l: LinkedList<T>, s: seq<nat>, c: seq<T>, k: int, r: LinkedList<T>, q: int)
    requires SplicedAt(l, s, c, k, r) && 0 <= q < |s|
    ensures r.nodes[s[q]] ==
              if q == k then WithPrev(l.nodes[s[q]], Some(|r.nodes| - 1))
              else if q == k - 1 then WithNext(l.nodes[s[q]], Some(|l.nodes|))
              else l.nodes[s[q]]
  {
    if q != k && q != k - 1 {
      assert s[q] < |l.nodes|;
      if k < |s| {
        assert s[q] != s[k];
      }
      if k > 0 {
        assert s[q] != s[k - 1];
      }
    }
  }

  /** Position i of the spine after the splice: the old spine up to k, the
      fresh indices n, n+1, .., then the rest of the old spine. */
  function SpliceIx(s: seq<nat>, k: int, n: nat, count: nat, i: int): nat
    requires 0 <= k <= |s| && 0 <= i < |s| + count
  {
    if i < k then s[i] else if i < k + count then n + (i - k) else s[i - count]
  }

  lemma SpliceAt(s: seq<nat>, k: int, n: nat, count: nat, i: int)
    requires 0 <= k <= |s| && 0 <= i < |s| + count
    ensures SeqSpec.InsertAllAt(s, k, Fresh(n, count))[i] == SpliceIx(s, k, n, count, i)
  {
    SeqSpec.InsertAllAtIndex(s, k, Fresh(n, count), i);
  }

  /** Two old spine neighbours that the run does not come between still
      point at each other. */
  lemma SpliceOldPair<T>(l: LinkedList<T>, s: seq<nat>, c: seq<T>, k: int, r: LinkedList<T>, q: int)
    requires SplicedAt(l, s, c, k, r) && 0 <= q && q + 1 < |s| && q + 1 != k
    ensures r.nodes[s[q]].next == Some(s[q + 1]) && r.nodes[s[q + 1]].prev == Some(s[q])
  {
    SpliceNode(l, s, c, k, r, q);
    SpliceNode(l, s, c, k, r, q + 1);
    Neighbours(l, s, q);
  }

  /** The links between positions i and i+1 of the new spine. */
  lemma SplicePair<T>(l: LinkedList<T>, s: seq<nat>, c: seq<T>, k: int, r: LinkedList<T>, i: int)
    requires SplicedAt(l, s, c, k, r) && 0 <= i && i + 1 < |s| + |c|
    ensures var a, b := SpliceIx(s, k, |l.nodes|, |c|, i), SpliceIx(s, k, |l.nodes|, |c|, i + 1);
            r.nodes[a].next == Some(b) && r.nodes[b].prev == Some(a)
  {
    if i + 1 < k {
      SpliceOldPair(l, s, c, k, r, i);
    } else if i + 1 == k {
      SpliceNode(l, s, c, k, r, i);
    } else if i + 1 == k + |c| {
      SpliceNode(l, s, c, k, r, k);
    } else if i + 1 > k + |c| {
      SpliceOldPair(l, s, c, k, r, i - |c|);
    }
  }

  lemma SpliceLinked<T>(l: LinkedList<T>, s: seq<nat>, c: seq<T>, k: int, r: LinkedList<T>)
    requires SplicedAt(l, s, c, k, r)
    requires Spine(r, SeqSpec.InsertAllAt(s, k, Fresh(|l.nodes|, |c|)))
    ensures Linked(r, SeqSpec.InsertAllAt(s, k, Fresh(|l.nodes|, |c|)))
  {
    var s' := SeqSpec.InsertAllAt(s, k, Fresh(|l.nodes|, |c|));
    forall i, j | 0 <= i && j == i + 1 && j < |s'|
      ensures r.nodes[s'[i]].next == Some(s'[j]) && r.nodes[s'[j]].prev == Some(s'[i])
    {
      SpliceAt(s, k, |l.nodes|, |c|, i);
      SpliceAt(s, k, |l.nodes|, |c|, j);
      SplicePair(l, s, c, k, r, i);
    }
  }

  lemma SpliceEnds<T>(l: LinkedList<T>, s: seq<nat>, c: seq<T>, k: int, r: LinkedList<T>)
    requires SplicedAt(l, s, c, k, r)
    requires Spine(r, SeqSpec.InsertAllAt(s, k, Fresh(|l.nodes|, |c|)))
    ensures Ends(r, SeqSpec.InsertAllAt(s, k, Fresh(|l.nodes|, |c|)))
  {
    SpliceAt(s, k, |l.nodes|, |c|, 0);
    SpliceAt(s, k, |l.nodes|, |c|, |s| + |c| - 1);
    SpliceFirst(l, s, c, k, r);
    SpliceLast(l, s, c, k, r);
  }

  /** The head of the new spine is first and has no prev. */
  lemma SpliceFirst<T>(l: LinkedList<T>, s: seq<nat>, c: seq<T>, k: int, r: LinkedList<T>)
    requires SplicedAt(l, s, c, k, r)
    ensures var x := SpliceIx(s, k, |l.nodes|, |c|, 0);
            x < |r.nodes| && r.first == Some(x) && r.nodes[x].prev.None?
  {
    if k > 0 {
      SpliceNode(l, s, c, k, r, 0);
      Neighbours(l, s, 0);
    }
  }

  /** The tail of the new spine is last and has no next. */
  lemma SpliceLast<T>(l: LinkedList<T>, s: seq<nat>, c: seq<T>, k: int, r: LinkedList<T>)
    requires SplicedAt(l, s, c, k, r)
    ensures var x := SpliceIx(s, k, |l.nodes|, |c|, |s| + |c| - 1);
            x < |r.nodes| && r.last == Some(x) && r.nodes[x].next.None?
  {
    if k < |s| {
      SpliceNode(l, s, c, k, r, |s| - 1);
      Neighbours(l, s, |s| - 1);
    }
  }

  /** The element at position i of the new spine. */
  lemma SpliceElem<T>(l: LinkedList<T>, s: seq<nat>, c: seq<T>, k: int, r: LinkedList<T>, i: int)
    requires SplicedAt(l, s, c, k, r) && 0 <= i < |s| + |c|
    ensures r.nodes[SpliceIx(s, k, |l.nodes|, |c|, i)].elem ==
              if i < k then l.nodes[s[i]].elem else if i < k + |c| then c[i - k] else l.nodes[s[i - |c|]].elem
  {
    if i < k {
      SpliceNode(l, s, c, k, r, i);
    } else if i >= k + |c| {
      SpliceNode(l, s, c, k, r, i - |c|);
    }
  }

  lemma SpliceElems<T>(l: LinkedList<T>, s: seq<nat>, c: seq<T>, k: int, r: LinkedList<T>)
    requires SplicedAt(l, s, c, k, r)
    requires Chain(r, SeqSpec.InsertAllAt(s, k, Fresh(|l.nodes|, |c|)))
    ensures Elems(r, SeqSpec.InsertAllAt(s, k, Fresh(|l.nodes|, |c|))) == SeqSpec.InsertAllAt(Elems(l, s), k, c)
  {
    var n := |l.nodes|;
    var s' := SeqSpec.InsertAllAt(s, k, Fresh(n, |c|));
    var E' := SeqSpec.InsertAllAt(Elems(l, s), k, c);
    forall i | 0 <= i < |s'| ensures r.nodes[s'[i]].elem == E'[i] {
      SpliceAt(s, k, n, |c|, i);
      SeqSpec.InsertAllAtIndex(Elems(l, s), k, c, i);
      SpliceElem(l, s, c, k, r, i);
    }
  }

  /** Linking the run c in at position k splices c into the elements at k. */
  lemma SpliceChain<T>(l: LinkedList<T>, s: seq<nat>, c: seq<T>, k: int, r: LinkedList<T>)
    requires SplicedAt(l, s, c, k, r)
    ensures Chain(r, SeqSpec.InsertAllAt(s, k, Fresh(|l.nodes|, |c|)))
    ensures Elems(r, SeqSpec.InsertAllAt(s, k, Fresh(|l.nodes|, |c|))) == SeqSpec.InsertAllAt(Elems(l, s), k, c)
  {
    SpliceSpine(l, s, c, k, r);
    SpliceLinked(l, s, c, k, r);
    SpliceEnds(l, s, c, k, r);
    SpliceElems(l, s, c, k, r);
  }

  /** The AddAllIndex loop: links a node for each element of c in behind
      prev0, each new node behind the one before; first becomes the first
      new node when prev0 is nil. Returns the arena, first and the newest
      node. */
  method LinkRun<T>(arena: seq<Node<T>>, first0: Option<nat>, prev0: Option<nat>, c: seq<T>) returns (nodes: seq<Node<T>>, first: Option<nat>, prev: Option<nat>)
    requires prev0.Some? ==> prev0.value < |arena|
    ensures Run(arena, c, |c|, prev0, nodes)
    ensures prev == if |c| == 0 then prev0 else Some(|arena| + |c| - 1)
    ensures first == if prev0.None? && |c| > 0 then Some(|arena|) else first0
  {
    nodes, first, prev := arena, first0, prev0;
    var i := 0;
    while i < |c|
      invariant Run(arena, c, i, prev0, nodes)
      invariant prev == if i == 0 then prev0 else Some(|arena| + i - 1)
      invariant first == if prev0.None? && i > 0 then Some(|arena|) else first0
    {
      RunStep(arena, c, i, prev0, nodes, prev);
      var m := |nodes|;
      nodes := nodes + [Node(c[i], None, prev)];
      if prev.None? {
        first := Some(m);
      } else {
        nodes := nodes[prev.value := WithNext(nodes[prev.value], Some(m))];
      }
      prev := Some(m);
      i := i + 1;
    }
  }

  /** Splicing in an empty run leaves the list as it is. */
  lemma SpliceNothing<T>(l: LinkedList<T>, s: seq<nat>, index: int, c: seq<T>)
    requires Valid(l, s) && 0 <= index <= |s| && |c| == 0
    ensures Valid(l, SeqSpec.InsertAllAt(s, index, Fresh(|l.nodes|, |c|)))
    ensures Elems(l, SeqSpec.InsertAllAt(s, index, Fresh(|l.nodes|, |c|))) == SeqSpec.InsertAllAt(Elems(l, s), index, c)
  {
    SeqSpec.InsertNothing(s, index, Fresh(|l.nodes|, |c|));
    SeqSpec.InsertNothing(Elems(l, s), index, c);
  }

  /** Closing the gap after LinkRun splices c into the list at index. */
  lemma RunSplice<T>(l: LinkedList<T>, s: seq<nat>, index: int, c: seq<T>, prev0: Option<nat>, p: Option<nat>, nodes: seq<Node<T>>, first: Option<nat>, newest: Option<nat>)
    requires Valid(l, s) && 0 <= index <= |s| && |c| > 0
    requires prev0 == (if index > 0 then Some(s[index - 1]) else None)
    requires p == (if index < |s| then Some(s[index]) else None)
    requires Run(l.nodes, c, |c|, prev0, nodes)
    requires first == (if prev0.None? then Some(|l.nodes|) else l.first)
    requires newest == Some(|l.nodes| + |c| - 1)
    ensures p.Some? ==> p.value < |nodes|
    ensures var r := Close(nodes, first, l.last, newest, p, l.size + |c|);
            && Valid(r, SeqSpec.InsertAllAt(s, index, Fresh(|l.nodes|, |c|)))
            && Elems(r, SeqSpec.InsertAllAt(s, index, Fresh(|l.nodes|, |c|))) == SeqSpec.InsertAllAt(Elems(l, s), index, c)
  {
    RunClose(l, s, index, c, prev0, p, nodes, first);
    SpliceChain(l, s, c, index, Close(nodes, first, l.last, newest, p, l.size + |c|));
  }

  /** AddAllIndex: IndexOutOfBound outside [0, size]; false for an empty c;
      otherwise c's elements are linked in as a run starting at index. The
      Go loop chains the new nodes behind prev (the node before index) and
      joins the run to p (the node at index) once it is complete. */
  method AddAllIndex<T>(l: LinkedList<T>, s: seq<nat>, index: int, c: seq<T>) returns (l': LinkedList<T>, modified: bool, err: Outcome<Errors.Error>)
    requires Valid(l, s)
    ensures !(0 <= index <= |s|) ==> l' == l && !modified && err == Fail(Errors.IndexOutOfBound)
    ensures 0 <= index <= |s| ==> err == Pass && (modified <==> |c| > 0)
    ensures 0 <= index <= |s| ==>
              && Valid(l', SeqSpec.InsertAllAt(s, index, Fresh(|l.nodes|, |c|)))
              && Elems(l', SeqSpec.InsertAllAt(s, index, Fresh(|l.nodes|, |c|))) == SeqSpec.InsertAllAt(Elems(l, s), index, c)
  {
    if !IsPositionIndex(l, index) {
      return l, false, Fail(Errors.IndexOutOfBound);
    }
    if |c| == 0 {
      SpliceNothing(l, s, index, c);
      return l, false, Pass;
    }
    var prev: Option<nat>;
    var p: Option<nat>;
    if l.size == index {
      p := None;
      prev := l.last;
    } else {
      var x := GetNode(l, s, index);
      Neighbours(l, s, index);
      p := Some(x);
      prev := l.nodes[x].prev;
    }
    l' := Splice(l, s, index, c, prev, p);
    return l', true, Pass;
  }

  /** The rest of AddAllIndex once prev (the node before index) and p (the
      node at index) are known: the loop, then closing the gap. */
  method Splice<T>(l: LinkedList<T>, s: seq<nat>, index: int, c: seq<T>, prev: Option<nat>, p: Option<nat>) returns (l': LinkedList<T>)
    requires Valid(l, s) && 0 <= index <= |s| && |c| > 0
    requires prev == (if index > 0 then Some(s[index - 1]) else None)
    requires p == (if index < |s| then Some(s[index]) else None)
    ensures Valid(l', SeqSpec.InsertAllAt(s, index, Fresh(|l.nodes|, |c|)))
    ensures Elems(l', SeqSpec.InsertAllAt(s, index, Fresh(|l.nodes|, |c|))) == SeqSpec.InsertAllAt(Elems(l, s), index, c)
  {
    assert prev.Some? ==> prev.value < |l.nodes|;
    var nodes, first, newest := LinkRun(l.nodes, l.first, prev, c);
    RunSplice(l, s, index, c, prev, p, nodes, first, newest);
    l' := Close(nodes, first, l.last, newest, p, l.size + |c|);
  }


  /** Slice: the elements first to last. */
  method Slice<T>(l: LinkedList<T>, s: seq<nat>) returns (elements: seq<T>)
    requires Valid(l, s)
    ensures elements == Elems(l, s)
  {
    elements := [];
    ghost var i := 0;
    var x := l.first;
    while x.Some?
      invariant 0 <= i <= |s|
      invariant x == if i < |s| then Some(s[i]) else None
      invariant elements == Elems(l, s)[..i]
      decreases |s| - i
    {
      Neighbours(l, s, i);
      elements := elements + [l.nodes[x.value].elem];
      i := i + 1;
      x := l.nodes[x.value].next;
    }
  }

  /** The list iterator: the node Next returns (next), the node it last
      returned (lastReturn) and next's position (nextIndex). */
  datatype Itr = Itr(next: Option<nat>, lastReturn: Option<nat>, nextIndex: int)

  /** The states a walk reaches: next is the node at nextIndex (nil past the
      end) and lastReturn, when set, is the node just before it. */
  ghost predicate ItrValid<T>(it: Itr, l: LinkedList<T>, s: seq<nat>) {
    && Valid(l, s)
    && 0 <= it.nextIndex <= |s|
    && it.next == (if it.nextIndex < |s| then Some(s[it.nextIndex]) else None)
    && (it.lastReturn.None? || (it.nextIndex > 0 && it.lastReturn == Some(s[it.nextIndex - 1])))
  }

  /** Iterator: starts at the first node with nothing returned. */
  function Iterator<T>(l: LinkedList<T>, s: seq<nat>): (it: Itr)
    requires Valid(l, s)
    ensures ItrValid(it, l, s) && it.nextIndex == 0 && it.lastReturn.None?
  {
    Itr(l.first, None, 0)
  }

  /** HasNext: nextIndex is below the size. */
  function HasNext<T>(it: Itr, l: LinkedList<T>, s: seq<nat>): (r: bool)
    ensures ItrValid(it, l, s) ==> (r <==> it.next.Some?)
  {
    it.nextIndex < l.size
  }

  /** Next: the element at nextIndex, which it then passes; past the end
      IndexOutOfBound and nothing moves. */
  function Next<T>(it: Itr, l: LinkedList<T>, s: seq<nat>): (r: (Itr, Result<T, Errors.Error>))
    requires ItrValid(it, l, s)
    ensures it.nextIndex == |s| ==> r == (it, Err(Errors.IndexOutOfBound))
    ensures it.nextIndex < |s| ==>
              && ItrValid(r.0, l, s)
              && r.0.nextIndex == it.nextIndex + 1 && r.0.lastReturn.Some?
              && r.1 == Ok(Elems(l, s)[it.nextIndex])
  {
    if !HasNext(it, l, s) then (it, Err(Errors.IndexOutOfBound))
    else
      Neighbours(l, s, it.nextIndex);
      var x := it.next.value;
      (Itr(l.nodes[x].next, Some(x), it.nextIndex + 1), Ok(l.nodes[x].elem))
  }

  /** Remove: IllegalState with nothing returned since the last Remove;
      otherwise unlinks the node Next last returned, and the iterator
      keeps its place on the node after it. */
  function ItrRemove<T>(it: Itr, l: LinkedList<T>, s: seq<nat>): (r: (Itr, LinkedList<T>, Outcome<Errors.Error>))
    requires ItrValid(it, l, s)
    ensures it.lastReturn.None? ==> r == (it, l, Fail(Errors.IllegalState))
    ensures it.lastReturn.Some? ==>
              && r.2 == Pass
              && ItrValid(r.0, r.1, SeqSpec.RemoveAt(s, it.nextIndex - 1))
              && Elems(r.1, SeqSpec.RemoveAt(s, it.nextIndex - 1)) == SeqSpec.RemoveAt(Elems(l, s), it.nextIndex - 1)
              && r.0.nextIndex == it.nextIndex - 1 && r.0.lastReturn.None?
  {
    if it.lastReturn.None? then (it, l, Fail(Errors.IllegalState))
    else
      var x := it.lastReturn.value;
      var lastNext := l.nodes[x].next;
      var (l', _) := UnLink(l, s, x, it.nextIndex - 1);
      assert it.nextIndex < |s| ==> s[it.nextIndex] != x;
      if it.next == it.lastReturn then (Itr(lastNext, None, it.nextIndex), l', Pass)
      else (Itr(it.next, None, it.nextIndex - 1), l', Pass)
  }

  /** Next then Remove deletes the element just returned, and the walk
      goes on with the element after it. */
  lemma NextRemoveSkipsNothing<T>(it: Itr, l: LinkedList<T>, s: seq<nat>)
    requires ItrValid(it, l, s) && it.nextIndex < |s|
    ensures var (it2, l2, err) := NextRemove(it, l, s);
            var s2 := SeqSpec.RemoveAt(s, it.nextIndex);
            && err == Pass
            && it2.nextIndex == it.nextIndex
            && (it.nextIndex + 1 < |s| ==> Next(it2, l2, s2).1 == Ok(Elems(l, s)[it.nextIndex + 1]))
            && ItrRemove(it2, l2, s2).2 == Fail(Errors.IllegalState)
  {
  }

  /** A call of Next followed by a call of Remove on the same iterator. */
  function NextRemove<T>(it: Itr, l: LinkedList<T>, s: seq<nat>): (r: (Itr, LinkedList<T>, Outcome<Errors.Error>))
    requires ItrValid(it, l, s) && it.nextIndex < |s|
    ensures var s2 := SeqSpec.RemoveAt(s, it.nextIndex);
            && ItrValid(r.0, r.1, s2) && r.0.lastReturn.None?
            && Elems(r.1, s2) == SeqSpec.RemoveAt(Elems(l, s), it.nextIndex)
  {
    var (it1, _) := Next(it, l, s);
    ItrRemove(it1, l, s)
  }

  /** Equals: true for the list itself (`same`), false on a size mismatch,
      otherwise true iff the elements agree pairwise in order. */
  method Equals<T(==)>(l: LinkedList<T>, s: seq<nat>, c: seq<T>, same: bool) returns (b: bool)
    requires Valid(l, s)
    requires same ==> c == Elems(l, s)
    ensures b <==> Elems(l, s) == c
  {
    if same {
      return true;
    }
    if l.size != |c| {
      return false;
    }
    var i1 := Iterator(l, s);
    var i2 := 0;
    while HasNext(i1, l, s) && i2 < |c|
      invariant ItrValid(i1, l, s) && i1.nextIndex == i2 <= |c|
      invariant Elems(l, s)[..i2] == c[..i2]
      decreases |c| - i2
    {
      var (i1', e1) := Next(i1, l, s);
      var e2 := c[i2];
      assert Elems(l, s)[..i2 + 1] == Elems(l, s)[..i2] + [e1.value];
      assert c[..i2 + 1] == c[..i2] + [e2];
      i1, i2 := i1', i2 + 1;
      if e1.value != e2 {
        return false;
      }
    }
    assert Elems(l, s) == Elems(l, s)[..i2] && c == c[..i2];
    return true;
  }

  /** batchRemove: walks the list with its iterator and removes each element
      whose membership in c equals `complement`; reports whether it removed
      any. */
  method BatchRemove<T(==)>(l: LinkedList<T>, s: seq<nat>, c: seq<T>, complement: bool) returns (l': LinkedList<T>, modified: bool, s': seq<nat>)
    requires Valid(l, s)
    ensures Valid(l', s')
    ensures Elems(l', s') == SeqSpec.Keep(Elems(l, s), c, !complement)
    ensures modified <==> exists i :: 0 <= i < |s| && (Elems(l, s)[i] in c) == complement
  {
    var E := Elems(l, s);
    var it := Iterator(l, s);
    l', modified, s' := l, false, s;
    var k := 0;
    var kept: seq<T> := [];
    assert E[..0] == [] && E[0..] == E;
    while HasNext(it, l', s')
      invariant BatchState(E, c, complement, it, l', s', k, kept, modified)
      decreases |E| - k
    {
      it, l', s', k, kept, modified := BatchStep(E, c, complement, it, l', s', k, kept, modified);
    }
    BatchDone(E, c, complement, it, l', s', k, kept, modified);
  }

  /** When the iterator is exhausted every element has been looked at. */
  lemma BatchDone<T>(E: seq<T>, c: seq<T>, complement: bool, it: Itr, l: LinkedList<T>, s: seq<nat>, k: int, kept: seq<T>, modified: bool)
    requires BatchState(E, c, complement, it, l, s, k, kept, modified) && !HasNext(it, l, s)
    ensures Valid(l, s) && Elems(l, s) == SeqSpec.Keep(E, c, !complement)
    ensures modified <==> exists i :: 0 <= i < |E| && (E[i] in c) == complement
  {
    assert E[..k] == E;
  }

  /** Where batchRemove stands after k elements: the kept ones form the
      list's prefix up to the iterator, the rest follow untouched, and
      `modified` records whether anything was removed. */
  ghost predicate BatchState<T>(E: seq<T>, c: seq<T>, complement: bool, it: Itr, l: LinkedList<T>, s: seq<nat>, k: int, kept: seq<T>, modified: bool) {
    && 0 <= k <= |E| && |s| == |kept| + |E| - k
    && ItrValid(it, l, s) && it.lastReturn.None? && it.nextIndex == |kept|
    && kept == SeqSpec.Keep(E[..k], c, !complement)
    && Elems(l, s) == kept + E[k..]
    && (modified <==> exists i :: 0 <= i < k && (E[i] in c) == complement)
  }

  /** One turn of the batchRemove loop: Next, then Remove when the
      element's membership in c equals `complement`. */
  method BatchStep<T(==)>(E: seq<T>, c: seq<T>, complement: bool, it: Itr, l: LinkedList<T>, s: seq<nat>, k: int, kept: seq<T>, modified: bool) returns (it': Itr, l': LinkedList<T>, s': seq<nat>, k': int, kept': seq<T>, modified': bool)
    requires BatchState(E, c, complement, it, l, s, k, kept, modified) && HasNext(it, l, s)
    ensures BatchState(E, c, complement, it', l', s', k', kept', modified') && k' == k + 1
  {
    var (it1, next) := Next(it, l, s);
    NextIsElement(E, c, complement, it, l, s, k, kept, modified);
    k' := k + 1;
    if (next.value in c) == complement {
      var (it2, l2, _) := ItrRemove(it1, l, s);
      StepDrop(E, c, complement, it, l, s, k, kept, modified);
      it', l', s', kept', modified' := it2, l2, SeqSpec.RemoveAt(s, |kept|), kept, true;
    } else {
      StepKeep(E, c, complement, it, l, s, k, kept, modified);
      it', l', s', kept', modified' := Itr(it1.next, None, it1.nextIndex), l, s, kept + [E[k]], modified;
    }
  }

  /** The element Next yields is E[k]. */
  lemma NextIsElement<T>(E: seq<T>, c: seq<T>, complement: bool, it: Itr, l: LinkedList<T>, s: seq<nat>, k: int, kept: seq<T>, modified: bool)
    requires BatchState(E, c, complement, it, l, s, k, kept, modified) && HasNext(it, l, s)
    ensures k < |E| && Next(it, l, s).1 == Ok(E[k])
  {
  }

  /** A removed element leaves the kept prefix as it is. */
  lemma StepDrop<T>(E: seq<T>, c: seq<T>, complement: bool, it: Itr, l: LinkedList<T>, s: seq<nat>, k: int, kept: seq<T>, modified: bool)
    requires BatchState(E, c, complement, it, l, s, k, kept, modified) && HasNext(it, l, s)
    requires k < |E| && (E[k] in c) == complement
    ensures var (it1, _) := Next(it, l, s);
            var (it2, l2, _) := ItrRemove(it1, l, s);
            BatchState(E, c, complement, it2, l2, SeqSpec.RemoveAt(s, |kept|), k + 1, kept, true)
  {
    var (it1, _) := Next(it, l, s);
    var (it2, l2, _) := ItrRemove(it1, l, s);
    var s2 := SeqSpec.RemoveAt(s, |kept|);
    assert ItrValid(it2, l2, s2) && it2.lastReturn.None? && it2.nextIndex == |kept|;
    SeqSpec.KeepStep(E, c, !complement, k);
    SuffixStep(E, k);
    assert kept == SeqSpec.Keep(E[..k + 1], c, !complement);
    DropAfter(kept, E[k..]);
    assert Elems(l2, s2) == SeqSpec.RemoveAt(kept + E[k..], |kept|);
  }

  /** A retained element joins the kept prefix. */
  lemma StepKeep<T>(E: seq<T>, c: seq<T>, complement: bool, it: Itr, l: LinkedList<T>, s: seq<nat>, k: int, kept: seq<T>, modified: bool)
    requires BatchState(E, c, complement, it, l, s, k, kept, modified) && HasNext(it, l, s)
    requires k < |E| && (E[k] in c) != complement
    ensures var (it1, _) := Next(it, l, s);
            BatchState(E, c, complement, Itr(it1.next, None, it1.nextIndex), l, s, k + 1, kept + [E[k]], modified)
  {
    var (it1, _) := Next(it, l, s);
    assert ItrValid(Itr(it1.next, None, it1.nextIndex), l, s);
    SeqSpec.KeepStep(E, c, !complement, k);
    SuffixStep(E, k);
    SeqSpec.MoveHead(kept, E[k..]);
    assert (exists i :: 0 <= i < k + 1 && (E[i] in c) == complement) ==> exists i :: 0 <= i < k && (E[i] in c) == complement;
  }

  /** The suffix from k is E[k] followed by the suffix from k + 1. */
  lemma SuffixStep<T>(E: seq<T>, k: int)
    requires 0 <= k < |E|
    ensures E[k..] == [E[k]] + E[k + 1..] && E[k..][1..] == E[k + 1..]
  {
  }

  /** Removing the element right after a prefix joins the prefix to the rest. */
  lemma DropAfter<T>(p: seq<T>, q: seq<T>)
    requires |q| > 0
    ensures SeqSpec.RemoveAt(p + q, |p|) == p + q[1..]
  {
    var r := SeqSpec.RemoveAt(p + q, |p|);
    forall j | 0 <= j < |r| ensures r[j] == (p + q[1..])[j] {
      if j >= |p| {
        assert r[j] == (p + q)[j + 1];
      }
    }
  }

  /** RemoveAll: drops the elements contained in c, keeping order. */
  method RemoveAll<T(==)>(l: LinkedList<T>, s: seq<nat>, c: seq<T>) returns (l': LinkedList<T>, modified: bool, s': seq<nat>)
    requires Valid(l, s)
    ensures Valid(l', s')
    ensures Elems(l', s') == SeqSpec.Keep(Elems(l, s), c, false)
    ensures forall x :: x in Elems(l', s') <==> x in Elems(l, s) && x !in c
    ensures modified <==> exists i :: 0 <= i < |s| && Elems(l, s)[i] in c
  {
    l', modified, s' := BatchRemove(l, s, c, true);
    SeqSpec.KeepMembers(Elems(l, s), c, false);
  }

  /** RetainAll: keeps only the elements contained in c, keeping order. */
  method RetainAll<T(==)>(l: LinkedList<T>, s: seq<nat>, c: seq<T>) returns (l': LinkedList<T>, modified: bool, s': seq<nat>)
    requires Valid(l, s)
    ensures Valid(l', s')
    ensures Elems(l', s') == SeqSpec.Keep(Elems(l, s), c, true)
    ensures forall x :: x in Elems(l', s') <==> x in Elems(l, s) && x in c
    ensures modified <==> exists i :: 0 <= i < |s| && Elems(l, s)[i] !in c
  {
    l', modified, s' := BatchRemove(l, s, c, false);
    SeqSpec.KeepMembers(Elems(l, s), c, true);
  }
}
