/** `sort.SliceStable` and the in-place filter `kept := s[:0]`. */
module Sorting {

  /** `le(a, b)` is `!less(b, a)` of the Go comparator. */
  ghost predicate TotalPreorder<T(!new)>(le: (T, T) -> bool) {
    && (forall a, b :: le(a, b) || le(b, a))
    && (forall a, b, c | le(a, b) && le(b, c) :: le(a, c))
  }

  ghost predicate SortedBy<T(!new)>(le: (T, T) -> bool, s: seq<T>) {
    forall i, j | 0 <= i < j < |s| :: le(s[i], s[j])
  }

  /** x in front of the first element that is not below it. */
  function Insert<T>(le: (T, T) -> bool, x: T, s: seq<T>): (r: seq<T>)
    ensures multiset(r) == multiset{x} + multiset(s)
  {
    if s == [] then [x]
    else if le(x, s[0]) then [x] + s
    else
      assert s == [s[0]] + s[1..];
      [s[0]] + Insert(le, x, s[1..])
  }

  function StableSort<T>(le: (T, T) -> bool, s: seq<T>): (r: seq<T>)
    ensures multiset(r) == multiset(s)
    ensures |r| == |s|
  {
    if s == [] then []
    else
      assert s == [s[0]] + s[1..];
      var r := Insert(le, s[0], StableSort(le, s[1..]));
      assert |multiset(r)| == |multiset(s)|;
      r
  }

  lemma SameElements<T(!new)>(a: seq<T>, b: seq<T>)
    requires multiset(a) == multiset(b)
    ensures forall x :: x in a <==> x in b
  {
    assert forall x :: x in a <==> x in multiset(a);
    assert forall x :: x in b <==> x in multiset(b);
  }

  lemma {:induction false} InsertSorted<T(!new)>(le: (T, T) -> bool, x: T, s: seq<T>)
    requires TotalPreorder(le) && SortedBy(le, s)
    ensures SortedBy(le, Insert(le, x, s))
  {
    if s != [] && !le(x, s[0]) {
      InsertSorted(le, x, s[1..]);
      var r := Insert(le, x, s[1..]);
      SameElements(r, [x] + s[1..]);
      forall j | 0 <= j < |r|
        ensures le(s[0], r[j])
      {
        assert r[j] in r;
        assert r[j] in [x] + s[1..];
      }
    }
  }

  lemma {:induction false} SortSorts<T(!new)>(le: (T, T) -> bool, s: seq<T>)
    requires TotalPreorder(le)
    ensures SortedBy(le, StableSort(le, s))
  {
    if s != [] {
      SortSorts(le, s[1..]);
      InsertSorted(le, s[0], StableSort(le, s[1..]));
    }
  }

  /** Sorting a sorted sequence changes nothing. */
  lemma {:induction false} SortOfSorted<T(!new)>(le: (T, T) -> bool, s: seq<T>)
    requires SortedBy(le, s)
    ensures StableSort(le, s) == s
  {
    if s != [] {
      SortOfSorted(le, s[1..]);
      assert |s| > 1 ==> le(s[0], s[1]);
    }
  }

  function Filter<T(!new)>(p: T -> bool, s: seq<T>): (r: seq<T>)
    ensures forall x :: x in r <==> x in s && p(x)
    ensures |r| <= |s|
  {
    if s == [] then []
    else
      var front := Filter(p, s[..|s| - 1]);
      assert s == s[..|s| - 1] + [s[|s| - 1]];
      if p(s[|s| - 1]) then front + [s[|s| - 1]] else front
  }

  lemma FilterTake<T(!new)>(p: T -> bool, s: seq<T>, i: nat)
    requires i < |s|
    ensures Filter(p, s[..i + 1]) == Filter(p, s[..i]) + if p(s[i]) then [s[i]] else []
  {
    assert s[..i + 1][..i] == s[..i];
  }

  /** r is what stands in s at the positions `at`, in order; they are all the
      positions at which p holds. */
  ghost predicate Selects<T(!new)>(p: T -> bool, s: seq<T>, r: seq<T>, at: seq<nat>) {
    && |r| == |at|
    && (forall i, j | 0 <= i < j < |at| :: at[i] < at[j])
    && (forall i | 0 <= i < |at| :: at[i] < |s| && r[i] == s[at[i]])
    && (forall j: nat | j < |s| :: j in at <==> p(s[j]))
  }

  lemma {:induction false} FilterSelects<T(!new)>(p: T -> bool, s: seq<T>) returns (at: seq<nat>)
    ensures Selects(p, s, Filter(p, s), at)
  {
    at := [];
    if s != [] {
      var n := |s| - 1;
      at := FilterSelects(p, s[..n]);
      at := SelectsSnoc(p, s, Filter(p, s[..n]), at);
    }
  }

  lemma SelectsSnoc<T(!new)>(p: T -> bool, s: seq<T>, r: seq<T>, at: seq<nat>) returns (at': seq<nat>)
    requires s != [] && Selects(p, s[..|s| - 1], r, at)
    ensures Selects(p, s, if p(s[|s| - 1]) then r + [s[|s| - 1]] else r, at')
  {
    if p(s[|s| - 1]) {
      SelectsLast(p, s, r, at);
      at' := at + [|s| - 1];
    } else {
      SelectsMore(p, s, r, at);
      at' := at;
    }
  }

  lemma SelectsMore<T(!new)>(p: T -> bool, s: seq<T>, r: seq<T>, at: seq<nat>)
    requires s != [] && Selects(p, s[..|s| - 1], r, at) && !p(s[|s| - 1])
    ensures Selects(p, s, r, at)
  {
    var front := s[..|s| - 1];
    forall j: nat | j < |s|
      ensures j in at <==> p(s[j])
    {
      if j < |front| {
        assert front[j] == s[j];
      }
    }
  }

  lemma SelectsLast<T(!new)>(p: T -> bool, s: seq<T>, r: seq<T>, at: seq<nat>)
    requires s != [] && Selects(p, s[..|s| - 1], r, at) && p(s[|s| - 1])
    ensures Selects(p, s, r + [s[|s| - 1]], at + [|s| - 1])
  {
    var front, n := s[..|s| - 1], |s| - 1;
    forall j: nat | j < |s|
      ensures j in at + [n] <==> p(s[j])
    {
      if j < n {
        assert front[j] == s[j];
        assert j in at + [n] <==> j in at;
      } else {
        assert (at + [n])[|at|] == n;
      }
    }
    forall i | 0 <= i < |at|
      ensures r[i] == s[at[i]]
    {
      assert front[at[i]] == s[at[i]];
    }
  }

  lemma {:induction false} FilterConcat<T(!new)>(p: T -> bool, a: seq<T>, b: seq<T>)
    ensures Filter(p, a + b) == Filter(p, a) + Filter(p, b)
  {
    if b == [] {
      assert a + b == a;
    } else {
      var n := |b| - 1;
      assert (a + b)[..|a + b| - 1] == a + b[..n];
      FilterConcat(p, a, b[..n]);
    }
  }

  lemma {:induction false} FilterKeepsAll<T(!new)>(p: T -> bool, s: seq<T>)
    ensures |Filter(p, s)| == |s| <==> forall x | x in s :: p(x)
    ensures |Filter(p, s)| == |s| ==> Filter(p, s) == s
  {
    if s != [] {
      FilterKeepsAll(p, s[..|s| - 1]);
      assert s == s[..|s| - 1] + [s[|s| - 1]];
      assert s[|s| - 1] in s;
    }
  }

  lemma {:induction false} FilterNone<T(!new)>(p: T -> bool, s: seq<T>)
    requires forall x | x in s :: !p(x)
    ensures Filter(p, s) == []
  {
    if s != [] {
      var n := |s| - 1;
      assert s[n] in s;
      assert forall x | x in s[..n] :: x in s;
      FilterNone(p, s[..n]);
    }
  }

  lemma {:induction false} FilterSorted<T(!new)>(le: (T, T) -> bool, p: T -> bool, s: seq<T>)
    requires SortedBy(le, s)
    ensures SortedBy(le, Filter(p, s))
  {
    if s != [] {
      var n := |s| - 1;
      FilterSorted(le, p, s[..n]);
      var front := Filter(p, s[..n]);
      forall i | 0 <= i < |front|
        ensures le(front[i], s[n])
      {
        assert front[i] in front;
        var j :| 0 <= j < n && s[..n][j] == front[i];
      }
    }
  }

  /** Stability: elements the order does not tell apart keep their order. */
  lemma {:induction false} SortStable<T(!new)>(le: (T, T) -> bool, s: seq<T>, p: T -> bool)
    requires TotalPreorder(le) && forall x, y | p(x) && p(y) :: le(x, y)
    ensures Filter(p, StableSort(le, s)) == Filter(p, s)
  {
    if s != [] {
      SortStable(le, s[1..], p);
      SortSorts(le, s[1..]);
      InsertStable(le, s[0], StableSort(le, s[1..]), p);
      assert s == [s[0]] + s[1..];
      FilterConcat(p, [s[0]], s[1..]);
    }
  }

  lemma {:induction false} InsertStable<T(!new)>(le: (T, T) -> bool, x: T, s: seq<T>, p: T -> bool)
    requires p(x) ==> forall y | y in s && p(y) :: le(x, y)
    ensures Filter(p, Insert(le, x, s)) == Filter(p, [x]) + Filter(p, s)
  {
    if s == [] {
    } else if le(x, s[0]) {
      FilterConcat(p, [x], s);
    } else {
      InsertStable(le, x, s[1..], p);
      var rest := Insert(le, x, s[1..]);
      assert Insert(le, x, s) == [s[0]] + rest;
      FilterConcat(p, [s[0]], rest);
      FilterStep(p, s);
      FilterOne(p, s[0]);
      FilterOne(p, x);
      assert !(p(x) && p(s[0]));
      Unordered(Filter(p, [x]), Filter(p, [s[0]]), Filter(p, s[1..]));
    }
  }

  /** Pieces of which one is empty may be swapped. */
  lemma Unordered<T>(a: seq<T>, b: seq<T>, c: seq<T>)
    requires a == [] || b == []
    ensures b + (a + c) == a + (b + c)
  {
  }

  lemma FilterStep<T(!new)>(p: T -> bool, s: seq<T>)
    requires s != []
    ensures Filter(p, s) == (if p(s[0]) then [s[0]] else []) + Filter(p, s[1..])
  {
    assert s == [s[0]] + s[1..];
    FilterConcat(p, [s[0]], s[1..]);
    FilterOne(p, s[0]);
  }

  lemma FilterOne<T(!new)>(p: T -> bool, x: T)
    ensures Filter(p, [x]) == if p(x) then [x] else []
  {
    assert [x][..0] == [];
  }

  ghost predicate Injective<T(!new), K(!new)>(key: T -> K, s: seq<T>) {
    forall i, j | 0 <= i < j < |s| :: key(s[i]) != key(s[j])
  }

  lemma {:induction false} SortKeepsInjective<T(!new), K(!new)>(le: (T, T) -> bool, key: T -> K, s: seq<T>)
    requires Injective(key, s)
    ensures Injective(key, StableSort(le, s))
  {
    if s != [] {
      SortKeepsInjective(le, key, s[1..]);
      var r := StableSort(le, s[1..]);
      SameElements(r, s[1..]);
      forall y | y in r
        ensures key(y) != key(s[0])
      {
        var j :| 0 <= j < |s[1..]| && s[1..][j] == y;
        assert s[j + 1] == y;
      }
      InsertKeepsInjective(le, key, s[0], r);
    }
  }

  lemma {:induction false} InsertKeepsInjective<T(!new), K(!new)>(le: (T, T) -> bool, key: T -> K, x: T, s: seq<T>)
    requires Injective(key, s) && forall y | y in s :: key(y) != key(x)
    ensures Injective(key, Insert(le, x, s))
  {
    if s != [] && !le(x, s[0]) {
      InsertKeepsInjective(le, key, x, s[1..]);
      var r := Insert(le, x, s[1..]);
      SameElements(r, [x] + s[1..]);
      forall j | 0 <= j < |r|
        ensures key(s[0]) != key(r[j])
      {
        assert r[j] in [x] + s[1..];
        if r[j] != x {
          var k :| 0 <= k < |s[1..]| && s[1..][k] == r[j];
          assert s[k + 1] == r[j];
        }
      }
    }
  }

  lemma {:induction false} FilterKeepsInjective<T(!new), K(!new)>(key: T -> K, p: T -> bool, s: seq<T>)
    requires Injective(key, s)
    ensures Injective(key, Filter(p, s))
  {
    if s != [] {
      var n := |s| - 1;
      FilterKeepsInjective(key, p, s[..n]);
      var front := Filter(p, s[..n]);
      forall i | 0 <= i < |front|
        ensures key(front[i]) != key(s[n])
      {
        assert front[i] in front;
        var j :| 0 <= j < n && s[..n][j] == front[i];
      }
    }
  }

  function KeysOf<T, K>(key: T -> K, s: seq<T>): set<K> {
    if s == [] then {} else KeysOf(key, s[..|s| - 1]) + {key(s[|s| - 1])}
  }

  lemma KeysOfSnoc<T, K>(key: T -> K, s: seq<T>, x: T)
    ensures KeysOf(key, s + [x]) == KeysOf(key, s) + {key(x)}
  {
    assert (s + [x])[..|s|] == s;
  }

  lemma {:induction false} KeysOfExact<T, K(!new)>(key: T -> K, s: seq<T>)
    ensures forall k :: k in KeysOf(key, s) <==> exists x | x in s :: key(x) == k
  {
    if s != [] {
      KeysOfExact(key, s[..|s| - 1]);
      assert s == s[..|s| - 1] + [s[|s| - 1]];
    }
  }

  /** `kept := s[:0]` over an array: the kept elements overwrite the front of the
      array they are read from, the matching ones are collected, and the keys of
      the kept ones are gathered on the way. */
  method KeepInPlace<T(!new), K(==)>(a: array<T>, matching: T -> bool, unmatched: T -> bool, key: T -> K)
    returns (n: nat, removed: seq<T>, referenced: set<K>)
    requires forall x :: unmatched(x) <==> !matching(x)
    modifies a
    ensures n <= a.Length && a[..n] == Filter(unmatched, old(a[..]))
    ensures removed == Filter(matching, old(a[..]))
    ensures referenced == KeysOf(key, a[..n])
  {
    ghost var was := a[..];
    ghost var kept: seq<T> := [];
    n, removed, referenced := 0, [], {};
    for i := 0 to a.Length
      invariant n == |kept| <= i
      invariant forall j | 0 <= j < n :: a[j] == kept[j]
      invariant forall j | i <= j < a.Length :: a[j] == was[j]
      invariant kept == Filter(unmatched, was[..i])
      invariant removed == Filter(matching, was[..i])
      invariant referenced == KeysOf(key, kept)
    {
      FilterTake(matching, was, i);
      FilterTake(unmatched, was, i);
      var x := a[i];
      if matching(x) {
        removed := removed + [x];
        continue;
      }
      KeysOfSnoc(key, kept, x);
      kept := kept + [x];
      a[n] := x;
      n := n + 1;
      referenced := referenced + {key(x)};
    }
    assert was[..a.Length] == was && a[..n] == kept;
  }
}
