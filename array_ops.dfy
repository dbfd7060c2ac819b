/**
 * The JavaScript array built-ins the program relies on: `map`, `filter`,
 * `find` and the stable `sort` with a descending numeric comparator
 * `(a, b) => key(b) - key(a)`.
 */
module ArrayOps {
  import opened Wrappers

  /** `s.map(f)`. */
  function MapSeq<A, B>(s: seq<A>, f: A -> B): (r: seq<B>)
    ensures |r| == |s|
  {
    if s == [] then [] else [f(s[0])] + MapSeq(s[1..], f)
  }

  lemma {:induction false} MapSeqAt<A, B>(s: seq<A>, f: A -> B, i: nat)
    requires i < |s|
    ensures MapSeq(s, f)[i] == f(s[i])
  {
    if i > 0 {
      MapSeqAt(s[1..], f, i - 1);
    }
  }

  // ---------------------------------------------------------------------------
  // filter

  /** `s.filter(p)`: the elements that satisfy `p`, in their order. */
  function Filter<T>(s: seq<T>, p: T -> bool): (r: seq<T>)
    ensures |r| <= |s|
  {
    if s == [] then [] else Filter(s[..|s| - 1], p) + (if p(s[|s| - 1]) then [s[|s| - 1]] else [])
  }

  lemma FilterSnoc<T>(s: seq<T>, x: T, p: T -> bool)
    ensures Filter(s + [x], p) == Filter(s, p) + (if p(x) then [x] else [])
  {
    assert (s + [x])[..|s|] == s;
  }

  /** Filtering a concatenation filters each part, keeping the parts in order. */
  lemma {:induction false} FilterAppend<T>(a: seq<T>, b: seq<T>, p: T -> bool)
    ensures Filter(a + b, p) == Filter(a, p) + Filter(b, p)
    decreases |b|
  {
    if b != [] {
      var b' := b[..|b| - 1];
      var x := b[|b| - 1];
      assert b == b' + [x];
      assert a + b == (a + b') + [x];
      FilterAppend(a, b', p);
      FilterSnoc(a + b', x, p);
      FilterSnoc(b', x, p);
    } else {
      assert a + b == a;
    }
  }

  /** An element survives the filter exactly when it is present and satisfies the predicate. */
  lemma {:induction false} FilterMembers<T>(s: seq<T>, p: T -> bool, x: T)
    ensures x in Filter(s, p) <==> x in s && p(x)
  {
    if s != [] {
      var s' := s[..|s| - 1];
      FilterMembers(s', p, x);
      assert s == s' + [s[|s| - 1]];
    }
  }

  /** Nothing is lost when every element satisfies the predicate. */
  lemma {:induction false} FilterAll<T>(s: seq<T>, p: T -> bool)
    requires forall i :: 0 <= i < |s| ==> p(s[i])
    ensures Filter(s, p) == s
  {
    if s != [] {
      FilterAll(s[..|s| - 1], p);
    }
  }

  // ---------------------------------------------------------------------------
  // find

  /** The first position at or after `i` whose element satisfies `p`, or -1. */
  function FindFrom<T>(s: seq<T>, p: T -> bool, i: nat): (r: int)
    requires i <= |s|
    ensures r == -1 || i <= r < |s|
    decreases |s| - i
  {
    if i == |s| then -1 else if p(s[i]) then i else FindFrom(s, p, i + 1)
  }

  lemma {:induction false} FindFromSpec<T>(s: seq<T>, p: T -> bool, i: nat)
    requires i <= |s|
    ensures FindFrom(s, p, i) >= 0 ==> p(s[FindFrom(s, p, i)])
    ensures forall j :: i <= j < |s| && (FindFrom(s, p, i) == -1 || j < FindFrom(s, p, i)) ==> !p(s[j])
    decreases |s| - i
  {
    if i < |s| && !p(s[i]) {
      FindFromSpec(s, p, i + 1);
    }
  }

  /** `s.find(p)`: the first element that satisfies `p`, if any. */
  function Find<T>(s: seq<T>, p: T -> bool): Option<T> {
    var i := FindFrom(s, p, 0);
    if i < 0 then None else Some(s[i])
  }

  /** `find` gives the element at the first position that satisfies the predicate. */
  lemma FindFirst<T>(s: seq<T>, p: T -> bool, i: nat)
    requires i < |s| && p(s[i])
    requires forall j :: 0 <= j < i ==> !p(s[j])
    ensures Find(s, p) == Some(s[i])
  {
    FindFromSpec(s, p, 0);
  }

  /** `find` gives nothing exactly when no element satisfies the predicate. */
  lemma FindNone<T>(s: seq<T>, p: T -> bool)
    ensures Find(s, p).None? <==> forall j :: 0 <= j < |s| ==> !p(s[j])
  {
    FindFromSpec(s, p, 0);
  }

  /** What `find` gives is an element that satisfies the predicate, and the first one. */
  lemma FindSome<T>(s: seq<T>, p: T -> bool)
    requires Find(s, p).Some?
    ensures exists i :: (0 <= i < |s| && s[i] == Find(s, p).value && p(s[i]) &&
      forall j :: 0 <= j < i ==> !p(s[j]))
  {
    FindFromSpec(s, p, 0);
    var i := FindFrom(s, p, 0);
    assert s[i] == Find(s, p).value;
  }

  // ---------------------------------------------------------------------------
  // sort

  /** Descending by `key`. */
  predicate SortedDesc<T>(s: seq<T>, key: T -> int) {
    forall i, j :: 0 <= i < j < |s| ==> key(s[i]) >= key(s[j])
  }

  predicate AllAtLeast<T>(s: seq<T>, key: T -> int, b: int) {
    forall i :: 0 <= i < |s| ==> key(s[i]) >= b
  }

  /**
   * Insert `x` into `t` after every element whose key is at least `x`'s:
   * from the back, step over the elements with a smaller key.
   */
  function Insert<T>(t: seq<T>, x: T, key: T -> int): (r: seq<T>)
    ensures |r| == |t| + 1
  {
    if t == [] || key(t[|t| - 1]) >= key(x) then t + [x]
    else Insert(t[..|t| - 1], x, key) + [t[|t| - 1]]
  }

  /** The stable descending sort: insert the elements one by one, in order. */
  function Sort<T>(s: seq<T>, key: T -> int): (r: seq<T>)
    ensures |r| == |s|
  {
    if s == [] then [] else Insert(Sort(s[..|s| - 1], key), s[|s| - 1], key)
  }

  lemma {:induction false} InsertPerm<T>(t: seq<T>, x: T, key: T -> int)
    ensures multiset(Insert(t, x, key)) == multiset(t) + multiset{x}
  {
    if t != [] && key(t[|t| - 1]) < key(x) {
      InsertPerm(t[..|t| - 1], x, key);
      assert t == t[..|t| - 1] + [t[|t| - 1]];
    }
  }

  lemma AllAtLeastAppend<T>(a: seq<T>, b: seq<T>, key: T -> int, m: int)
    ensures AllAtLeast(a + b, key, m) <==> AllAtLeast(a, key, m) && AllAtLeast(b, key, m)
  {
    if AllAtLeast(a, key, m) && AllAtLeast(b, key, m) {
      forall i | 0 <= i < |a + b|
        ensures key((a + b)[i]) >= m
      {
        if i >= |a| {
          assert (a + b)[i] == b[i - |a|];
        }
      }
    }
    if AllAtLeast(a + b, key, m) {
      forall i | 0 <= i < |a|
        ensures key(a[i]) >= m
      {
        assert (a + b)[i] == a[i];
      }
      forall i | 0 <= i < |b|
        ensures key(b[i]) >= m
      {
        assert (a + b)[|a| + i] == b[i];
      }
    }
  }

  lemma {:induction false} InsertAtLeast<T>(t: seq<T>, x: T, key: T -> int, m: int)
    requires AllAtLeast(t, key, m) && key(x) >= m
    ensures AllAtLeast(Insert(t, x, key), key, m)
  {
    if t == [] || key(t[|t| - 1]) >= key(x) {
      AllAtLeastAppend(t, [x], key, m);
    } else {
      var t' := t[..|t| - 1];
      assert t == t' + [t[|t| - 1]];
      AllAtLeastAppend(t', [t[|t| - 1]], key, m);
      InsertAtLeast(t', x, key, m);
      AllAtLeastAppend(Insert(t', x, key), [t[|t| - 1]], key, m);
    }
  }

  lemma SortedSnoc<T>(u: seq<T>, e: T, key: T -> int)
    requires SortedDesc(u, key) && AllAtLeast(u, key, key(e))
    ensures SortedDesc(u + [e], key)
  {
  }

  lemma SortedPrefixBound<T>(t: seq<T>, key: T -> int)
    requires t != [] && SortedDesc(t, key)
    ensures SortedDesc(t[..|t| - 1], key) && AllAtLeast(t[..|t| - 1], key, key(t[|t| - 1]))
  {
  }

  lemma {:induction false} InsertSorted<T>(t: seq<T>, x: T, key: T -> int)
    requires SortedDesc(t, key)
    ensures SortedDesc(Insert(t, x, key), key)
  {
    if t == [] || key(t[|t| - 1]) >= key(x) {
      if t != [] {
        SortedPrefixBound(t, key);
      }
      assert AllAtLeast(t, key, key(x));
      SortedSnoc(t, x, key);
    } else {
      var t' := t[..|t| - 1];
      var last := t[|t| - 1];
      SortedPrefixBound(t, key);
      InsertSorted(t', x, key);
      InsertAtLeast(t', x, key, key(last));
      SortedSnoc(Insert(t', x, key), last, key);
    }
  }

  /** The sort's output is in descending key order. */
  lemma {:induction false} SortIsSorted<T>(s: seq<T>, key: T -> int)
    ensures SortedDesc(Sort(s, key), key)
  {
    if s != [] {
      SortIsSorted(s[..|s| - 1], key);
      InsertSorted(Sort(s[..|s| - 1], key), s[|s| - 1], key);
    }
  }

  /** The sort's output is a permutation of its input. */
  lemma {:induction false} SortIsPermutation<T>(s: seq<T>, key: T -> int)
    ensures multiset(Sort(s, key)) == multiset(s)
  {
    if s != [] {
      var s', last := s[..|s| - 1], s[|s| - 1];
      assert s == s' + [last];
      assert multiset(s) == multiset(s') + multiset{last};
      SortIsPermutation(s', key);
      InsertPerm(Sort(s', key), last, key);
    }
  }

  /** The elements whose key is `k`. */
  function KeyIs<T>(key: T -> int, k: int): T -> bool {
    x => key(x) == k
  }

  lemma {:induction false} InsertStable<T>(t: seq<T>, x: T, key: T -> int, k: int)
    ensures Filter(Insert(t, x, key), KeyIs(key, k)) ==
      Filter(t, KeyIs(key, k)) + (if key(x) == k then [x] else [])
  {
    var p := KeyIs(key, k);
    if t == [] || key(t[|t| - 1]) >= key(x) {
      FilterSnoc(t, x, p);
    } else {
      var t' := t[..|t| - 1];
      var last := t[|t| - 1];
      assert t == t' + [last];
      InsertStable(t', x, key, k);
      FilterSnoc(Insert(t', x, key), last, p);
      FilterSnoc(t', last, p);
    }
  }

  /**
   * The sort is stable: the elements of any one key come out in the order
   * they went in.
   */
  lemma {:induction false} SortIsStable<T>(s: seq<T>, key: T -> int, k: int)
    ensures Filter(Sort(s, key), KeyIs(key, k)) == Filter(s, KeyIs(key, k))
  {
    if s != [] {
      var s' := s[..|s| - 1];
      SortIsStable(s', key, k);
      InsertStable(Sort(s', key), s[|s| - 1], key, k);
      FilterSnoc(s', s[|s| - 1], KeyIs(key, k));
      assert s == s' + [s[|s| - 1]];
    }
  }

  /** Input that is already in descending order comes out as it went in. */
  lemma {:induction false} SortedIsFixed<T>(s: seq<T>, key: T -> int)
    requires SortedDesc(s, key)
    ensures Sort(s, key) == s
  {
    if s != [] {
      var s' := s[..|s| - 1];
      assert SortedDesc(s', key);
      SortedIsFixed(s', key);
      assert s == s' + [s[|s| - 1]];
    }
  }

  /** The last element of a non-empty sorted sequence has the smallest key. */
  lemma LastIsLeast<T>(v: seq<T>, key: T -> int, x: T)
    requires v != [] && SortedDesc(v, key) && x in v
    ensures key(x) >= key(v[|v| - 1])
  {
    var i :| 0 <= i < |v| && v[i] == x;
  }

  lemma KeyClassLast<T>(u: seq<T>, key: T -> int, k: int)
    requires u != []
    ensures Filter(u, KeyIs(key, k)) ==
      Filter(u[..|u| - 1], KeyIs(key, k)) + (if key(u[|u| - 1]) == k then [u[|u| - 1]] else [])
  {
  }

  lemma SameLastKey<T>(u: seq<T>, v: seq<T>, key: T -> int)
    requires u != [] && v != [] && SortedDesc(v, key)
    requires Filter(u, KeyIs(key, key(u[|u| - 1]))) == Filter(v, KeyIs(key, key(u[|u| - 1])))
    ensures key(u[|u| - 1]) >= key(v[|v| - 1])
  {
    var a := u[|u| - 1];
    var p := KeyIs(key, key(a));
    FilterMembers(u, p, a);
    FilterMembers(v, p, a);
    LastIsLeast(v, key, a);
  }

  lemma SnocCancel<T>(x: seq<T>, y: seq<T>, e: seq<T>)
    requires x + e == y + e
    ensures x == y
  {
    assert x == (x + e)[..|x|];
    assert y == (y + e)[..|y|];
  }

  lemma LastOfSnoc<T>(x: seq<T>, a: T, y: seq<T>, b: T)
    requires x + [a] == y + [b]
    ensures a == b && x == y
  {
    assert (x + [a])[|x|] == a;
    SnocCancel(x, y, [a]);
  }

  lemma EmptyClasses<T>(u: seq<T>, v: seq<T>, key: T -> int)
    requires u == []
    requires forall k :: Filter(u, KeyIs(key, k)) == Filter(v, KeyIs(key, k))
    ensures v == []
  {
    if v != [] {
      var b := v[|v| - 1];
      FilterMembers(v, KeyIs(key, key(b)), b);
    }
  }

  lemma LastsAgree<T>(u: seq<T>, v: seq<T>, key: T -> int)
    requires u != [] && v != [] && SortedDesc(u, key) && SortedDesc(v, key)
    requires forall k :: Filter(u, KeyIs(key, k)) == Filter(v, KeyIs(key, k))
    ensures u[|u| - 1] == v[|v| - 1]
  {
    var a, b := u[|u| - 1], v[|v| - 1];
    assert Filter(u, KeyIs(key, key(a))) == Filter(v, KeyIs(key, key(a)));
    assert Filter(u, KeyIs(key, key(b))) == Filter(v, KeyIs(key, key(b)));
    SameLastKey(u, v, key);
    SameLastKey(v, u, key);
    KeyClassLast(u, key, key(a));
    KeyClassLast(v, key, key(a));
    LastOfSnoc(Filter(u[..|u| - 1], KeyIs(key, key(a))), a, Filter(v[..|v| - 1], KeyIs(key, key(a))), b);
  }

  lemma DropLastClasses<T>(u: seq<T>, v: seq<T>, key: T -> int)
    requires u != [] && v != [] && u[|u| - 1] == v[|v| - 1]
    requires forall k :: Filter(u, KeyIs(key, k)) == Filter(v, KeyIs(key, k))
    ensures forall k :: Filter(u[..|u| - 1], KeyIs(key, k)) == Filter(v[..|v| - 1], KeyIs(key, k))
  {
    var a := u[|u| - 1];
    forall k
      ensures Filter(u[..|u| - 1], KeyIs(key, k)) == Filter(v[..|v| - 1], KeyIs(key, k))
    {
      KeyClassLast(u, key, k);
      KeyClassLast(v, key, k);
      assert Filter(u, KeyIs(key, k)) == Filter(v, KeyIs(key, k));
      SnocCancel(Filter(u[..|u| - 1], KeyIs(key, k)), Filter(v[..|v| - 1], KeyIs(key, k)),
        if key(a) == k then [a] else []);
    }
  }

  /**
   * A stable descending sort has only one possible output: two sorted
   * sequences with the same elements of each key, in the same order, are equal.
   */
  lemma {:induction false} SortedUnique<T>(u: seq<T>, v: seq<T>, key: T -> int)
    requires SortedDesc(u, key) && SortedDesc(v, key)
    requires forall k :: Filter(u, KeyIs(key, k)) == Filter(v, KeyIs(key, k))
    ensures u == v
    decreases |u|
  {
    if u == [] {
      EmptyClasses(u, v, key);
    } else if v == [] {
      EmptyClasses(v, u, key);
    } else {
      LastsAgree(u, v, key);
      DropLastClasses(u, v, key);
      SortedPrefixBound(u, key);
      SortedPrefixBound(v, key);
      SortedUnique(u[..|u| - 1], v[..|v| - 1], key);
      assert u == u[..|u| - 1] + [u[|u| - 1]];
      assert v == v[..|v| - 1] + [v[|v| - 1]];
    }
  }

  /**
   * Whatever stable algorithm the engine runs, its result is this sort's:
   * any descending arrangement that keeps the order within each key equals it.
   */
  lemma SortCharacterized<T>(s: seq<T>, u: seq<T>, key: T -> int)
    requires SortedDesc(u, key)
    requires forall k :: Filter(u, KeyIs(key, k)) == Filter(s, KeyIs(key, k))
    ensures u == Sort(s, key)
  {
    SortIsSorted(s, key);
    forall k
      ensures Filter(u, KeyIs(key, k)) == Filter(Sort(s, key), KeyIs(key, k))
    {
      SortIsStable(s, key, k);
    }
    SortedUnique(u, Sort(s, key), key);
  }

  lemma InsertPeel<T>(t: seq<T>, j: nat, x: T, key: T -> int)
    requires 0 < j <= |t| && key(t[j - 1]) < key(x)
    ensures Insert(t[..j], x, key) == Insert(t[..j - 1], x, key) + [t[j - 1]]
  {
    assert t[..j][..j - 1] == t[..j - 1];
  }

  lemma InsertStop<T>(t: seq<T>, j: nat, x: T, key: T -> int)
    requires j <= |t| && (j == 0 || key(t[j - 1]) >= key(x))
    ensures Insert(t[..j], x, key) == t[..j] + [x]
  {
  }

  /** Swapping `x` with its left neighbour `t[j - 1]`. */
  lemma SwapLeft<T>(t: seq<T>, j: nat, x: T, rest: seq<T>, after: seq<T>)
    requires 0 < j <= |t|
    requires after == (t[..j] + [x] + t[j..] + rest)[j - 1 := x][j := t[j - 1]]
    ensures after == t[..j - 1] + [x] + t[j - 1..] + rest
  {
    var before := t[..j] + [x] + t[j..] + rest;
    var want := t[..j - 1] + [x] + t[j - 1..] + rest;
    assert |after| == |want|;
    forall k | 0 <= k < |after|
      ensures after[k] == want[k]
    {
      if k < j - 1 {
        assert after[k] == before[k] == t[k];
      } else if k > j {
        assert after[k] == before[k];
      }
    }
  }

  /** Moving past a neighbour with a smaller key keeps the decomposition of the insertion. */
  lemma InsertShift<T>(t: seq<T>, j: nat, x: T, key: T -> int)
    requires 0 < j <= |t| && key(t[j - 1]) < key(x)
    ensures Insert(t[..j], x, key) + t[j..] == Insert(t[..j - 1], x, key) + t[j - 1..]
  {
    InsertPeel(t, j, x, key);
    var p := Insert(t[..j - 1], x, key);
    assert t[j - 1..] == [t[j - 1]] + t[j..];
    assert (p + [t[j - 1]]) + t[j..] == p + ([t[j - 1]] + t[j..]);
  }

  lemma SortedPrefixSplit<T>(s: seq<T>, i: nat, cur: seq<T>, key: T -> int)
    requires i < |s| && cur == Sort(s[..i], key) + s[i..]
    ensures cur[..i] == Sort(s[..i], key) && cur[i] == s[i] && cur[i + 1..] == s[i + 1..]
  {
  }

  lemma SortStep<T>(s: seq<T>, i: nat, key: T -> int)
    requires i < |s|
    ensures Sort(s[..i + 1], key) == Insert(Sort(s[..i], key), s[i], key)
  {
    assert s[..i + 1][..i] == s[..i];
  }

  /**
   * One round of insertion: `a[i]` moves left past every neighbour with a
   * smaller key, so `a[..i + 1]` becomes `a[..i]` with `a[i]` inserted.
   */
  method InsertAt<T>(a: array<T>, i: nat, key: T -> int)
    requires i < a.Length
    modifies a
    ensures a[..] == Insert(old(a[..i]), old(a[i]), key) + old(a[i + 1..])
  {
    ghost var sorted := a[..i];
    ghost var rest := a[i + 1..];
    var x := a[i];
    assert a[..] == sorted[..i] + [x] + sorted[i..] + rest;
    assert sorted[..i] == sorted && sorted[i..] == [];
    var j := i;
    while j > 0 && key(a[j - 1]) < key(a[j])
      invariant 0 <= j <= i
      invariant a[..] == sorted[..j] + [x] + sorted[j..] + rest
      invariant Insert(sorted, x, key) == Insert(sorted[..j], x, key) + sorted[j..]
      decreases j
    {
      ghost var before := a[..];
      assert before[j] == x && before[j - 1] == sorted[j - 1];
      var y := a[j - 1];
      a[j - 1] := x;
      a[j] := y;
      InsertShift(sorted, j, x, key);
      SwapLeft(sorted, j, x, rest, a[..]);
      j := j - 1;
    }
    assert j == 0 || a[j - 1] == sorted[j - 1];
    InsertStop(sorted, j, x, key);
  }

  /**
   * `a.sort((x, y) => key(y) - key(x))` in place, by insertion: the array
   * ends up holding the stable descending sort of what it held.
   */
  method SortInPlace<T>(a: array<T>, key: T -> int)
    modifies a
    ensures a[..] == Sort(old(a[..]), key)
  {
    ghost var a0 := a[..];
    var i := 0;
    while i < a.Length
      invariant 0 <= i <= a.Length
      invariant a[..] == Sort(a0[..i], key) + a0[i..]
    {
      SortedPrefixSplit(a0, i, a[..], key);
      InsertAt(a, i, key);
      SortStep(a0, i, key);
      i := i + 1;
    }
    assert a0[..a.Length] == a0;
  }
}
