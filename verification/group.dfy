/** group/group.go: grouping the elements of a Grouper by a key function.

    A Grouper is modelled by the sequence of its elements (Size() is the
    length, Get(i) the i-th element); functionBy is a total function. */
module Group {

  /** The keys the elements of g produce. */
  ghost function Image<T, K>(g: seq<T>, f: T -> K): set<K>
  {
    set i | 0 <= i < |g| :: f(g[i])
  }

  /** The elements of g with key k, in source index order. */
  function FilterKey<T, K(==)>(g: seq<T>, f: T -> K, k: K): (r: seq<T>)
    ensures |r| <= |g|
  {
    if |g| == 0 then []
    else FilterKey(g[..|g| - 1], f, k) + (if f(g[|g| - 1]) == k then [g[|g| - 1]] else [])
  }

  /** Reference grouping: every key of the image mapped to its elements. */
  ghost function Groups<T, K>(g: seq<T>, f: T -> K): map<K, seq<T>>
  {
    map k | k in Image(g, f) :: FilterKey(g, f, k)
  }

  /** Reference counting: every key of the image mapped to its number of elements. */
  ghost function Counts<T, K>(g: seq<T>, f: T -> K): map<K, int>
  {
    map k | k in Image(g, f) :: |FilterKey(g, f, k)|
  }

  /** The sum of the values of a finite map. */
  ghost function SumValues<K>(m: map<K, int>): int
    decreases m.Keys
  {
    if m.Keys == {} then 0
    else
      var k :| k in m;
      assert (m - {k}).Keys < m.Keys;
      m[k] + SumValues(m - {k})
  }

  lemma ImageStep<T, K>(g: seq<T>, f: T -> K, i: int)
    requires 0 <= i < |g|
    ensures Image(g[..i + 1], f) == Image(g[..i], f) + {f(g[i])}
  {
    var a := g[..i + 1];
    var b := g[..i];
    forall k | k in Image(a, f) ensures k in Image(b, f) + {f(g[i])} {
      var j :| 0 <= j < |a| && f(a[j]) == k;
      if j < i {
        assert b[j] == a[j];
      }
    }
    forall k | k in Image(b, f) ensures k in Image(a, f) {
      var j :| 0 <= j < |b| && f(b[j]) == k;
      assert a[j] == b[j];
    }
    assert a[i] == g[i];
  }

  lemma FilterKeyStep<T, K>(g: seq<T>, f: T -> K, i: int, k: K)
    requires 0 <= i < |g|
    ensures FilterKey(g[..i + 1], f, k)
         == FilterKey(g[..i], f, k) + (if f(g[i]) == k then [g[i]] else [])
  {
    assert g[..i + 1][..i] == g[..i];
  }

  /** A key has elements exactly when it is in the image. */
  lemma {:induction false} FilterKeyNonEmpty<T, K>(g: seq<T>, f: T -> K, k: K)
    ensures |FilterKey(g, f, k)| > 0 <==> k in Image(g, f)
  {
    if |g| > 0 {
      var p := g[..|g| - 1];
      FilterKeyNonEmpty(p, f, k);
      ImageStep(g, f, |g| - 1);
      assert g[..|g|] == g;
    }
  }

  /** Counting one more element bumps its key's count by one. */
  lemma CountsStep<T, K>(g: seq<T>, f: T -> K, i: int)
    requires 0 <= i < |g|
    ensures var m := Counts(g[..i], f);
            var key := f(g[i]);
            Counts(g[..i + 1], f) == m[key := (if key in m then m[key] else 0) + 1]
  {
    var p := g[..i];
    var m := Counts(p, f);
    var key := f(g[i]);
    var m' := m[key := (if key in m then m[key] else 0) + 1];
    ImageStep(g, f, i);
    assert Counts(g[..i + 1], f).Keys == m'.Keys;
    forall k | k in m' ensures Counts(g[..i + 1], f)[k] == m'[k] {
      FilterKeyStep(g, f, i, k);
      FilterKeyNonEmpty(p, f, k);
    }
  }

  /** Grouping one more element appends it to its key's group. */
  lemma GroupsStep<T, K>(g: seq<T>, f: T -> K, i: int)
    requires 0 <= i < |g|
    ensures var m := Groups(g[..i], f);
            var key := f(g[i]);
            Groups(g[..i + 1], f) == m[key := if key in m then m[key] + [g[i]] else [g[i]]]
  {
    var p := g[..i];
    var m := Groups(p, f);
    var key := f(g[i]);
    var m' := m[key := if key in m then m[key] + [g[i]] else [g[i]]];
    ImageStep(g, f, i);
    assert Groups(g[..i + 1], f).Keys == m'.Keys;
    forall k | k in m' ensures Groups(g[..i + 1], f)[k] == m'[k] {
      FilterKeyStep(g, f, i, k);
      FilterKeyNonEmpty(p, f, k);
    }
  }

  /** Bumping one value of a map by one bumps the sum by one. */
  lemma SumValuesBump<K>(m: map<K, int>, key: K)
    ensures SumValues(m[key := (if key in m then m[key] else 0) + 1]) == SumValues(m) + 1
  {
    var m' := m[key := (if key in m then m[key] else 0) + 1];
    SumValuesRemove(m', key);
    if key in m {
      SumValuesRemove(m, key);
      assert m' - {key} == m - {key};
    } else {
      assert m' - {key} == m;
    }
  }

  /** Every element lands in exactly one group: the group sizes add up to |g|. */
  lemma {:induction false} CountsSum<T, K>(g: seq<T>, f: T -> K)
    ensures SumValues(Counts(g, f)) == |g|
  {
    if |g| == 0 {
      assert Counts(g, f) == map[];
    } else {
      CountsSum(g[..|g| - 1], f);
      CountsStep(g, f, |g| - 1);
      assert g[..|g|] == g;
      SumValuesBump(Counts(g[..|g| - 1], f), f(g[|g| - 1]));
    }
  }

  /** The sum does not depend on which key is taken out first. */
  lemma SumValuesRemove<K>(m: map<K, int>, k: K)
    requires k in m
    ensures SumValues(m) == m[k] + SumValues(m - {k})
    decreases m.Keys
  {
    var k' :| k' in m && SumValues(m) == m[k'] + SumValues(m - {k'});
    if k' != k {
      var m1 := m - {k'};
      var m2 := m - {k};
      assert m1.Keys < m.Keys && m2.Keys < m.Keys;
      SumValuesRemove(m1, k);
      SumValuesRemove(m2, k');
      assert m1 - {k} == m2 - {k'};
    }
  }

  /** By: the elements grouped by key, each group in source order; the key
      set is exactly the image of the elements. */
  method By<T, K(==)>(grouper: seq<T>, functionBy: T -> K) returns (result: map<K, seq<T>>)
    ensures result.Keys == Image(grouper, functionBy)
    ensures forall k :: k in result ==> result[k] == FilterKey(grouper, functionBy, k)
    ensures result == Groups(grouper, functionBy)
  {
    result := map[];
    if |grouper| == 0 {
      assert Image(grouper, functionBy) == {};
      return;
    }
    assert Image(grouper[..0], functionBy) == {};
    var i := 0;
    while i < |grouper|
      invariant 0 <= i <= |grouper|
      invariant result == Groups(grouper[..i], functionBy)
    {
      var obj := grouper[i];
      var key := functionBy(obj);
      GroupsStep(grouper, functionBy, i);
      if key !in result {
        result := result[key := [obj]];
      } else {
        result := result[key := result[key] + [obj]];
      }
      i := i + 1;
    }
    assert grouper[..i] == grouper;
  }

  /** ByCount: for each key of the image, how many elements carry it. */
  method ByCount<T, K(==)>(grouper: seq<T>, functionBy: T -> K) returns (result: map<K, int>)
    ensures result.Keys == Image(grouper, functionBy)
    ensures forall k :: k in result ==> result[k] == |FilterKey(grouper, functionBy, k)| > 0
    ensures result == Counts(grouper, functionBy)
  {
    result := map[];
    if |grouper| == 0 {
      assert Image(grouper, functionBy) == {};
      return;
    }
    assert Image(grouper[..0], functionBy) == {};
    var i := 0;
    while i < |grouper|
      invariant 0 <= i <= |grouper|
      invariant result == Counts(grouper[..i], functionBy)
    {
      var obj := grouper[i];
      var key := functionBy(obj);
      CountsStep(grouper, functionBy, i);
      var current := if key in result then result[key] else 0;
      result := result[key := current + 1];
      i := i + 1;
    }
    assert grouper[..i] == grouper;
    forall k | k in result ensures |FilterKey(grouper, functionBy, k)| > 0 {
      FilterKeyNonEmpty(grouper, functionBy, k);
    }
  }

  /** BySlice: one grouping per grouper, in input order. */
  method BySlice<T, K(==)>(groupers: seq<seq<T>>, functionBy: T -> K) returns (results: seq<map<K, seq<T>>>)
    ensures |results| == |groupers|
    ensures forall i :: 0 <= i < |groupers| ==> results[i] == Groups(groupers[i], functionBy)
  {
    results := [];
    if |groupers| == 0 {
      return;
    }
    for i := 0 to |groupers|
      invariant |results| == i
      invariant forall j :: 0 <= j < i ==> results[j] == Groups(groupers[j], functionBy)
    {
      var m := By(groupers[i], functionBy);
      results := results + [m];
    }
  }

  /** BySliceCount: one count map per grouper, in input order. */
  method BySliceCount<T, K(==)>(groupers: seq<seq<T>>, functionBy: T -> K) returns (results: seq<map<K, int>>)
    ensures |results| == |groupers|
    ensures forall i :: 0 <= i < |groupers| ==> results[i] == Counts(groupers[i], functionBy)
  {
    results := [];
    if |groupers| == 0 {
      return;
    }
    for i := 0 to |groupers|
      invariant |results| == i
      invariant forall j :: 0 <= j < i ==> results[j] == Counts(groupers[j], functionBy)
    {
      var m := ByCount(groupers[i], functionBy);
      results := results + [m];
    }
  }

  /** The count of a key is the size of its group, and the counts add up to
      the number of elements. */
  lemma CountIsGroupSize<T, K>(g: seq<T>, f: T -> K)
    ensures Counts(g, f).Keys == Groups(g, f).Keys
    ensures forall k :: k in Counts(g, f) ==> Counts(g, f)[k] == |Groups(g, f)[k]|
    ensures SumValues(Counts(g, f)) == |g|
  {
    CountsSum(g, f);
  }
}
