/** Reference definitions over plain sequences.

    Every container model states its operations against the abstract
    sequence of its elements; the definitions here say what "insert at",
    "remove at", "first occurrence", "keep where" mean, independently of any
    container's storage. */
module SeqSpec {

  /** Position of the first element equal to e, or -1. */
  function IndexOf<T(==)>(s: seq<T>, e: T): (r: int)
    ensures -1 <= r < |s|
    ensures r >= 0 ==> s[r] == e
    ensures r >= 0 ==> forall j :: 0 <= j < r ==> s[j] != e
    ensures r == -1 <==> e !in s
  {
    if |s| == 0 then -1
    else if s[0] == e then 0
    else
      var k := IndexOf(s[1..], e);
      if k < 0 then -1 else k + 1
  }

  /** Position of the last element equal to e, or -1. */
  function LastIndexOf<T(==)>(s: seq<T>, e: T): (r: int)
    ensures -1 <= r < |s|
    ensures r >= 0 ==> s[r] == e
    ensures r >= 0 ==> forall j :: r < j < |s| ==> s[j] != e
    ensures r == -1 <==> e !in s
  {
    if |s| == 0 then -1
    else if s[|s| - 1] == e then |s| - 1
    else LastIndexOf(s[..|s| - 1], e)
  }

  /** s with e placed at position i; later elements move one to the right. */
  function InsertAt<T>(s: seq<T>, i: int, e: T): (r: seq<T>)
    requires 0 <= i <= |s|
    ensures |r| == |s| + 1
    ensures r[i] == e
    ensures forall j {:trigger r[j]} :: 0 <= j < i ==> r[j] == s[j]
    ensures forall j :: i < j < |r| ==> r[j] == s[j - 1]
  {
    seq(|s| + 1, j requires 0 <= j <= |s| => if j < i then s[j] else if j == i then e else s[j - 1])
  }

  /** s with all of t placed, in order, from position i on. */
  function InsertAllAt<T>(s: seq<T>, i: int, t: seq<T>): (r: seq<T>)
    requires 0 <= i <= |s|
    ensures |r| == |s| + |t|
    ensures forall j {:trigger r[j]} :: 0 <= j < i ==> r[j] == s[j]
    ensures forall j :: 0 <= j < |t| ==> r[i + j] == t[j]
    ensures forall j :: i + |t| <= j < |r| ==> r[j] == s[j - |t|]
  {
    seq(|s| + |t|, j requires 0 <= j < |s| + |t| => if j < i then s[j] else if j < i + |t| then t[j - i] else s[j - |t|])
  }

  /** s without position i; later elements move one to the left. */
  function RemoveAt<T>(s: seq<T>, i: int): (r: seq<T>)
    requires 0 <= i < |s|
    ensures |r| == |s| - 1
    ensures forall j {:trigger r[j]} :: 0 <= j < i ==> r[j] == s[j]
    ensures forall j :: i <= j < |r| ==> r[j] == s[j + 1]
    ensures multiset(r) + multiset{s[i]} == multiset(s)
  {
    assert s == s[..i] + [s[i]] + s[i + 1..];
    s[..i] + s[i + 1..]
  }

  /** s without the first occurrence of e (unchanged when e is absent). */
  function RemoveFirstOccurrence<T(==)>(s: seq<T>, e: T): (r: seq<T>)
    ensures e in s ==> |r| == |s| - 1 && multiset(r) + multiset{e} == multiset(s)
    ensures e !in s ==> r == s
  {
    var k := IndexOf(s, e);
    if k < 0 then s else RemoveAt(s, k)
  }

  /** s without the last occurrence of e (unchanged when e is absent). */
  function RemoveLastOccurrence<T(==)>(s: seq<T>, e: T): (r: seq<T>)
    ensures e in s ==> |r| == |s| - 1 && multiset(r) + multiset{e} == multiset(s)
    ensures e !in s ==> r == s
  {
    var k := LastIndexOf(s, e);
    if k < 0 then s else RemoveAt(s, k)
  }

  /** The elements of s, in order, whose membership in c equals keepIfIn. */
  function Keep<T(==)>(s: seq<T>, c: seq<T>, keepIfIn: bool): (r: seq<T>)
    ensures |r| <= |s|
  {
    if |s| == 0 then []
    else
      var last := s[|s| - 1];
      assert s == s[..|s| - 1] + [last];
      Keep(s[..|s| - 1], c, keepIfIn) + (if (last in c) == keepIfIn then [last] else [])
  }

  /** Keep keeps exactly the elements of s whose membership in c is keepIfIn. */
  lemma {:induction false} KeepMembers<T>(s: seq<T>, c: seq<T>, keepIfIn: bool)
    ensures forall x :: x in Keep(s, c, keepIfIn) <==> x in s && (x in c) == keepIfIn
  {
    if |s| > 0 {
      var p := s[..|s| - 1];
      KeepMembers(p, c, keepIfIn);
      assert s == p + [s[|s| - 1]];
    }
  }

  /** Keep drops nothing exactly when every element passes. */
  lemma {:induction false} KeepAll<T>(s: seq<T>, c: seq<T>, keepIfIn: bool)
    ensures Keep(s, c, keepIfIn) == s <==> forall i :: 0 <= i < |s| ==> (s[i] in c) == keepIfIn
  {
    if |s| > 0 {
      var p := s[..|s| - 1];
      var last := s[|s| - 1];
      var tailPart := if (last in c) == keepIfIn then [last] else [];
      assert Keep(s, c, keepIfIn) == Keep(p, c, keepIfIn) + tailPart;
      assert s == p + [last];
      KeepAll(p, c, keepIfIn);
      if forall i :: 0 <= i < |s| ==> (s[i] in c) == keepIfIn {
        assert forall i :: 0 <= i < |p| ==> (p[i] in c) == keepIfIn by {
          forall i | 0 <= i < |p| ensures (p[i] in c) == keepIfIn {
            assert p[i] == s[i];
          }
        }
        assert (last in c) == keepIfIn;
      }
      if Keep(s, c, keepIfIn) == s {
        assert |Keep(p, c, keepIfIn)| <= |p|;
        assert |tailPart| == 1;
        assert Keep(p, c, keepIfIn) == Keep(s, c, keepIfIn)[..|p|] == p;
        forall i | 0 <= i < |s| ensures (s[i] in c) == keepIfIn {
          if i < |p| {
            assert s[i] == p[i];
          }
        }
      }
    }
  }

  /** Keeping the same number of elements means keeping all of them. */
  lemma {:induction false} KeepSameLength<T>(s: seq<T>, c: seq<T>, keepIfIn: bool)
    requires |Keep(s, c, keepIfIn)| == |s|
    ensures Keep(s, c, keepIfIn) == s
  {
    if |s| > 0 {
      var p := s[..|s| - 1];
      var last := s[|s| - 1];
      assert |Keep(p, c, keepIfIn)| <= |p|;
      KeepSameLength(p, c, keepIfIn);
      assert s == p + [last];
    }
  }

  /** Keep distributes over concatenation: it is one left-to-right pass. */
  lemma {:induction false} KeepAppend<T>(s: seq<T>, t: seq<T>, c: seq<T>, keepIfIn: bool)
    ensures Keep(s + t, c, keepIfIn) == Keep(s, c, keepIfIn) + Keep(t, c, keepIfIn)
    decreases |t|
  {
    if |t| == 0 {
      assert s + t == s;
    } else {
      var t' := t[..|t| - 1];
      var last := t[|t| - 1];
      var st := s + t;
      var tailPart := if (last in c) == keepIfIn then [last] else [];
      assert st[..|st| - 1] == s + t';
      assert st[|st| - 1] == last;
      KeepAppend(s, t', c, keepIfIn);
      calc {
        Keep(st, c, keepIfIn);
        Keep(st[..|st| - 1], c, keepIfIn) + tailPart;
        Keep(s + t', c, keepIfIn) + tailPart;
        Keep(s, c, keepIfIn) + Keep(t', c, keepIfIn) + tailPart;
        Keep(s, c, keepIfIn) + (Keep(t', c, keepIfIn) + tailPart);
        Keep(s, c, keepIfIn) + Keep(t, c, keepIfIn);
      }
    }
  }

  /** Removing at i and putting the same element back restores the sequence. */
  lemma RemoveInsertRoundTrip<T>(s: seq<T>, i: int)
    requires 0 <= i < |s|
    ensures InsertAt(RemoveAt(s, i), i, s[i]) == s
  {
  }

  /** Inserting at i and removing at i restores the sequence. */
  lemma InsertRemoveRoundTrip<T>(s: seq<T>, i: int, e: T)
    requires 0 <= i <= |s|
    ensures RemoveAt(InsertAt(s, i, e), i) == s
  {
  }

  /** A position holding e with no e before it is IndexOf's answer. */
  lemma IndexOfFound<T>(s: seq<T>, e: T, k: int)
    requires 0 <= k < |s| && s[k] == e
    requires forall j :: 0 <= j < k ==> s[j] != e
    ensures IndexOf(s, e) == k
  {
    var r := IndexOf(s, e);
    assert r != -1 && !(r < k);
  }

  /** A position holding e with no e after it is LastIndexOf's answer. */
  lemma LastIndexOfFound<T>(s: seq<T>, e: T, k: int)
    requires 0 <= k < |s| && s[k] == e
    requires forall j :: k < j < |s| ==> s[j] != e
    ensures LastIndexOf(s, e) == k
  {
    var r := LastIndexOf(s, e);
    assert r != -1 && !(r > k);
  }

  /** Position i of InsertAllAt(s, k, t), case by case. */
  lemma InsertAllAtIndex<T>(s: seq<T>, k: int, t: seq<T>, i: int)
    requires 0 <= k <= |s| && 0 <= i < |s| + |t|
    ensures InsertAllAt(s, k, t)[i] == if i < k then s[i] else if i < k + |t| then t[i - k] else s[i - |t|]
  {
    if k <= i < k + |t| {
      assert InsertAllAt(s, k, t)[k + (i - k)] == t[i - k];
    }
  }

  /** Keep over one more element of s: the element is appended when it passes. */
  lemma KeepStep<T>(s: seq<T>, c: seq<T>, keepIfIn: bool, i: int)
    requires 0 <= i < |s|
    ensures Keep(s[..i + 1], c, keepIfIn) == Keep(s[..i], c, keepIfIn) + (if (s[i] in c) == keepIfIn then [s[i]] else [])
  {
    assert s[..i + 1][..i] == s[..i];
  }

  /** The head of b can move to the end of a. */
  lemma MoveHead<T>(a: seq<T>, b: seq<T>)
    requires |b| > 0
    ensures a + b == (a + [b[0]]) + b[1..]
  {
    assert b == [b[0]] + b[1..];
  }

  /** Appending c[i] to a prefix of c extends the prefix by one. */
  lemma AppendTake<T>(e: seq<T>, c: seq<T>, i: int)
    requires 0 <= i < |c|
    ensures e + c[..i] + [c[i]] == e + c[..i + 1]
  {
    assert c[..i + 1] == c[..i] + [c[i]];
  }

  /** Inserting an empty run changes nothing. */
  lemma InsertNothing<T>(s: seq<T>, k: int, t: seq<T>)
    requires 0 <= k <= |s| && |t| == 0
    ensures InsertAllAt(s, k, t) == s
  {
    assert forall j :: 0 <= j < |s| ==> InsertAllAt(s, k, t)[j] == s[j];
  }
}
