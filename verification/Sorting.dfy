// Stable sorting by a strict weak order, and the facts about it that the
// engine's sort, top-K and window operators rely on.  `lt(a, b)` means that
// `a` must come strictly before `b`.
module Sorting {

  ghost predicate WeakOrder<T(!new)>(lt: (T, T) -> bool) {
    && (forall a, b :: lt(a, b) ==> !lt(b, a))
    && (forall a, b, c :: !lt(a, b) && !lt(b, c) ==> !lt(a, c))
  }

  ghost predicate Sorted<T>(s: seq<T>, lt: (T, T) -> bool) {
    forall i, j :: 0 <= i < j < |s| ==> !lt(s[j], s[i])
  }

  // No two different elements of s are tied.
  ghost predicate Tieless<T(!new)>(s: seq<T>, lt: (T, T) -> bool) {
    forall x, y :: x in s && y in s && x != y ==> lt(x, y) || lt(y, x)
  }

  function Take<T>(s: seq<T>, n: nat): (r: seq<T>) {
    if |s| <= n then s else s[..n]
  }

  function Drop<T>(s: seq<T>, n: nat): (r: seq<T>) {
    if |s| <= n then [] else s[n..]
  }

  // Rows [offset, offset + count) of s, clipped to its end.
  function Slice<T>(s: seq<T>, offset: nat, count: nat): (r: seq<T>) {
    Take(Drop(s, offset), count)
  }

  // Puts x after every element that does not have to follow it.
  function Insert<T>(s: seq<T>, x: T, lt: (T, T) -> bool): (r: seq<T>) {
    if |s| > 0 && lt(x, s[|s| - 1]) then Insert(s[..|s| - 1], x, lt) + [s[|s| - 1]]
    else s + [x]
  }

  function Sort<T>(s: seq<T>, lt: (T, T) -> bool): (r: seq<T>) {
    if s == [] then [] else Insert(Sort(s[..|s| - 1], lt), s[|s| - 1], lt)
  }

  // The first n elements of the sorted sequence.
  function TopN<T>(s: seq<T>, n: nat, lt: (T, T) -> bool): (r: seq<T>) {
    Take(Sort(s, lt), n)
  }

  function Filter<T>(s: seq<T>, p: T -> bool): (r: seq<T>) {
    if s == [] then []
    else if p(s[|s| - 1]) then Filter(s[..|s| - 1], p) + [s[|s| - 1]]
    else Filter(s[..|s| - 1], p)
  }

  function Map<T, U>(s: seq<T>, f: T -> U): (r: seq<U>)
    ensures |r| == |s|
    ensures forall i :: 0 <= i < |s| ==> r[i] == f(s[i])
  {
    seq(|s|, i requires 0 <= i < |s| => f(s[i]))
  }

  // How many elements of s come strictly before x.
  function CountBefore<T>(s: seq<T>, x: T, lt: (T, T) -> bool): (n: nat)
    ensures n <= |s|
  {
    if s == [] then 0
    else CountBefore(s[..|s| - 1], x, lt) + (if lt(s[|s| - 1], x) then 1 else 0)
  }

  lemma FrontLast<T>(s: seq<T>)
    requires s != []
    ensures s == s[..|s| - 1] + [s[|s| - 1]]
    ensures multiset(s) == multiset(s[..|s| - 1]) + multiset{s[|s| - 1]}
  {
    assert s == s[..|s| - 1] + [s[|s| - 1]];
  }

  lemma {:induction false} InsertMultiset<T>(s: seq<T>, x: T, lt: (T, T) -> bool)
    ensures multiset(Insert(s, x, lt)) == multiset(s) + multiset{x}
    ensures |Insert(s, x, lt)| == |s| + 1
  {
    if |s| > 0 && lt(x, s[|s| - 1]) {
      InsertMultiset(s[..|s| - 1], x, lt);
      FrontLast(s);
    }
  }

  lemma {:induction false} SortMultiset<T>(s: seq<T>, lt: (T, T) -> bool)
    ensures multiset(Sort(s, lt)) == multiset(s)
    ensures |Sort(s, lt)| == |s|
  {
    if s != [] {
      hide Insert;
      FrontLast(s);
      SortMultiset(s[..|s| - 1], lt);
      InsertMultiset(Sort(s[..|s| - 1], lt), s[|s| - 1], lt);
    }
  }

  lemma MultisetMembers<T>(a: seq<T>, b: seq<T>)
    requires multiset(a) == multiset(b)
    ensures forall x :: x in a <==> x in b
  {
    forall x ensures x in a <==> x in b {
      assert x in a <==> x in multiset(a);
      assert x in b <==> x in multiset(b);
    }
  }

  // Where Insert puts x: between the elements that stay in front and those that move back.
  lemma {:induction false} InsertAt<T(!new)>(s: seq<T>, x: T, lt: (T, T) -> bool, k: nat)
    requires k <= |s|
    requires forall i :: 0 <= i < k ==> !lt(x, s[i])
    requires forall i :: k <= i < |s| ==> lt(x, s[i])
    ensures Insert(s, x, lt) == s[..k] + [x] + s[k..]
  {
    if k < |s| {
      var s' := s[..|s| - 1];
      InsertAt(s', x, lt, k);
      assert s'[..k] == s[..k];
      assert s'[k..] + [s[|s| - 1]] == s[k..];
    } else if |s| > 0 {
      assert !lt(x, s[|s| - 1]);
    }
  }

  lemma {:induction false} InsertKeepsSorted<T(!new)>(s: seq<T>, x: T, lt: (T, T) -> bool)
    requires WeakOrder(lt) && Sorted(s, lt)
    ensures Sorted(Insert(s, x, lt), lt)
  {
    if |s| > 0 && lt(x, s[|s| - 1]) {
      var s', last := s[..|s| - 1], s[|s| - 1];
      InsertKeepsSorted(s', x, lt);
      InsertMultiset(s', x, lt);
      var r := Insert(s', x, lt);
      forall y | y in r ensures !lt(last, y) {
        assert y in multiset(r);
        assert y in s' || y == x;
        if y in s' {
          var i :| 0 <= i < |s'| && s'[i] == y;
          assert !lt(s[|s| - 1], s[i]);
        }
      }
    } else if |s| > 0 {
      forall i | 0 <= i < |s| ensures !lt(x, s[i]) {
        if i < |s| - 1 { assert !lt(s[|s| - 1], s[i]); }
      }
    }
  }

  lemma {:induction false} SortSorts<T(!new)>(s: seq<T>, lt: (T, T) -> bool)
    requires WeakOrder(lt)
    ensures Sorted(Sort(s, lt), lt)
  {
    if s != [] {
      SortSorts(s[..|s| - 1], lt);
      InsertKeepsSorted(Sort(s[..|s| - 1], lt), s[|s| - 1], lt);
    }
  }

  // Without ties there is only one sorted arrangement, so every correct
  // sorting routine, stable or not, returns Sort(s).
  lemma {:induction false} SortedIsUnique<T(!new)>(a: seq<T>, b: seq<T>, lt: (T, T) -> bool)
    requires WeakOrder(lt) && Sorted(a, lt) && Sorted(b, lt)
    requires multiset(a) == multiset(b)
    requires Tieless(a, lt)
    ensures a == b
    decreases |a|
  {
    hide Sorted, Tieless, WeakOrder;
    assert |a| == |multiset(a)| == |multiset(b)| == |b|;
    if a != [] {
      MultisetMembers(a, b);
      LastsAgree(a, b, lt);
      FrontLast(a);
      FrontLast(b);
      DropLast(a);
      DropLast(b);
      FrontSorted(a, lt);
      FrontSorted(b, lt);
      SortedIsUnique(a[..|a| - 1], b[..|b| - 1], lt);
    }
  }

  lemma FrontSorted<T(!new)>(s: seq<T>, lt: (T, T) -> bool)
    requires s != [] && Sorted(s, lt)
    ensures Sorted(s[..|s| - 1], lt)
    ensures Tieless(s, lt) ==> Tieless(s[..|s| - 1], lt)
  {
    assert forall x :: x in s[..|s| - 1] ==> x in s;
  }

  lemma DropLast<T>(s: seq<T>)
    requires s != []
    ensures multiset(s[..|s| - 1]) == multiset(s) - multiset{s[|s| - 1]}
  {
    FrontLast(s);
  }

  lemma LastsAgree<T(!new)>(a: seq<T>, b: seq<T>, lt: (T, T) -> bool)
    requires a != [] && b != []
    requires Sorted(a, lt) && Sorted(b, lt) && Tieless(a, lt)
    requires forall x :: x in a <==> x in b
    ensures a[|a| - 1] == b[|b| - 1]
  {
    var la, lb := a[|a| - 1], b[|b| - 1];
    assert la in b && lb in a;
    LastIsGreatest(a, lb, lt);
    LastIsGreatest(b, la, lt);
  }

  lemma LastIsGreatest<T(!new)>(s: seq<T>, x: T, lt: (T, T) -> bool)
    requires Sorted(s, lt) && x in s
    ensures x == s[|s| - 1] || !lt(s[|s| - 1], x)
  {
  }

  lemma AnySortIsSort<T(!new)>(s: seq<T>, r: seq<T>, lt: (T, T) -> bool)
    requires WeakOrder(lt) && Tieless(s, lt)
    requires Sorted(r, lt) && multiset(r) == multiset(s)
    ensures r == Sort(s, lt)
  {
    SortMultiset(s, lt);
    SortSorts(s, lt);
    MultisetMembers(r, s);
    SortedIsUnique(r, Sort(s, lt), lt);
  }

  // ----- keeping only the first n -----

  lemma {:induction false} InsertTake<T(!new)>(s: seq<T>, x: T, n: nat, lt: (T, T) -> bool)
    requires WeakOrder(lt) && Sorted(s, lt)
    ensures Take(Insert(s, x, lt), n) == Take(Insert(Take(s, n), x, lt), n)
    decreases |s|
  {
    if |s| > n {
      var s', last := s[..|s| - 1], s[|s| - 1];
      FrontSorted(s, lt);
      InsertTake(s', x, n, lt);
      assert Take(s', n) == Take(s, n);
      InsertMultiset(s', x, lt);
      if lt(x, last) {
        TakeFront(Insert(s', x, lt), last, n);
      } else {
        forall i | 0 <= i < |s'| ensures !lt(x, s'[i]) {
          assert !lt(s[|s| - 1], s[i]);
        }
        InsertAt(s', x, lt, |s'|);
        TakeFront(s', x, n);
        TakeFront(s, x, n);
        TakeFront(s', last, n);
        assert s == s' + [last];
        assert s'[..|s'|] + [x] + s'[|s'|..] == s' + [x];
      }
    }
  }

  lemma TakeFront<T>(s: seq<T>, x: T, n: nat)
    requires n <= |s|
    ensures Take(s + [x], n) == Take(s, n)
  {
  }

  // Dropping everything past position n after each arrival loses nothing.
  lemma TopNStep<T(!new)>(s: seq<T>, x: T, n: nat, lt: (T, T) -> bool)
    requires WeakOrder(lt)
    ensures TopN(s + [x], n, lt) == Take(Insert(TopN(s, n, lt), x, lt), n)
  {
    assert (s + [x])[..|s|] == s;
    SortSorts(s, lt);
    InsertTake(Sort(s, lt), x, n, lt);
  }

  // ----- removing elements that cannot be among the first n -----

  lemma FilterAppend<T>(s: seq<T>, x: T, p: T -> bool)
    ensures Filter(s + [x], p) == if p(x) then Filter(s, p) + [x] else Filter(s, p)
  {
    assert (s + [x])[..|s|] == s;
  }

  // An insertion behind the last element.
  lemma InsertLast<T(!new)>(s: seq<T>, x: T, lt: (T, T) -> bool)
    requires forall y :: y in s ==> !lt(x, y)
    ensures Insert(s, x, lt) == s + [x]
  {
    if s != [] { assert s[|s| - 1] in s; }
  }

  // An insertion in front of the last element.
  lemma InsertBeforeLast<T>(s: seq<T>, last: T, x: T, lt: (T, T) -> bool)
    requires lt(x, last)
    ensures Insert(s + [last], x, lt) == Insert(s, x, lt) + [last]
  {
    assert (s + [last])[..|s|] == s;
  }

  lemma {:induction false} FilterInsert<T(!new)>(s: seq<T>, x: T, p: T -> bool, lt: (T, T) -> bool)
    requires WeakOrder(lt) && Sorted(s, lt)
    ensures Filter(Insert(s, x, lt), p) == if p(x) then Insert(Filter(s, p), x, lt) else Filter(s, p)
    decreases |s|
  {
    if |s| > 0 && lt(x, s[|s| - 1]) {
      var s', last := s[..|s| - 1], s[|s| - 1];
      FrontSorted(s, lt);
      FrontLast(s);
      hide *;
      FilterInsert(s', x, p, lt);
      InsertBeforeLast(s', last, x, lt);
      FilterAppend(Insert(s', x, lt), last, p);
      FilterAppend(s', last, p);
      InsertBeforeLast(Filter(s', p), last, x, lt);
    } else {
      forall y | y in s ensures !lt(x, y) {
        LastIsGreatest(s, y, lt);
      }
      FilterMembers(s, p);
      InsertLast(s, x, lt);
      InsertLast(Filter(s, p), x, lt);
      FilterAppend(s, x, p);
    }
  }

  lemma {:induction false} FilterMembers<T>(s: seq<T>, p: T -> bool)
    ensures forall x :: x in Filter(s, p) <==> x in s && p(x)
  {
    if s != [] {
      FilterMembers(s[..|s| - 1], p);
      assert s == s[..|s| - 1] + [s[|s| - 1]];
    }
  }

  lemma {:induction false} SortFilter<T(!new)>(s: seq<T>, p: T -> bool, lt: (T, T) -> bool)
    requires WeakOrder(lt)
    ensures Sort(Filter(s, p), lt) == Filter(Sort(s, lt), p)
  {
    if s != [] {
      var s', last := s[..|s| - 1], s[|s| - 1];
      SortFilter(s', p, lt);
      SortSorts(s', lt);
      FilterInsert(Sort(s', lt), last, p, lt);
      if p(last) {
        var f := Filter(s', p) + [last];
        assert f[..|f| - 1] == Filter(s', p);
      }
    }
  }

  lemma {:induction false} FilterTake<T>(s: seq<T>, p: T -> bool, n: nat)
    requires forall i :: 0 <= i < n && i < |s| ==> p(s[i])
    ensures Take(Filter(s, p), n) == Take(s, n)
  {
    if s != [] {
      var s' := s[..|s| - 1];
      FilterTake(s', p, n);
      if |s| <= n {
        assert Filter(s', p) == s' by {
          assert |Take(Filter(s', p), n)| == |s'|;
          FilterLength(s', p);
        }
      } else {
        FilterLength(s', p);
        assert Take(s', n) == Take(s, n);
        assert |Filter(s', p)| >= n;
      }
    }
  }

  lemma {:induction false} FilterLength<T>(s: seq<T>, p: T -> bool)
    ensures |Filter(s, p)| <= |s|
  {
    if s != [] { FilterLength(s[..|s| - 1], p); }
  }

  lemma {:induction false} CountInsert<T>(s: seq<T>, y: T, x: T, lt: (T, T) -> bool)
    ensures CountBefore(Insert(s, y, lt), x, lt) == CountBefore(s, x, lt) + (if lt(y, x) then 1 else 0)
  {
    if |s| > 0 && lt(y, s[|s| - 1]) {
      CountInsert(s[..|s| - 1], y, x, lt);
      var r := Insert(s[..|s| - 1], y, lt) + [s[|s| - 1]];
      assert r[..|r| - 1] == Insert(s[..|s| - 1], y, lt);
    } else {
      assert (s + [y])[..|s|] == s;
    }
  }

  lemma {:induction false} CountSort<T>(s: seq<T>, x: T, lt: (T, T) -> bool)
    ensures CountBefore(Sort(s, lt), x, lt) == CountBefore(s, x, lt)
  {
    if s != [] {
      CountSort(s[..|s| - 1], x, lt);
      CountInsert(Sort(s[..|s| - 1], lt), s[|s| - 1], x, lt);
    }
  }

  lemma {:induction false} CountAtMost<T>(s: seq<T>, x: T, k: nat, lt: (T, T) -> bool)
    requires k <= |s|
    requires forall i :: k <= i < |s| ==> !lt(s[i], x)
    ensures CountBefore(s, x, lt) <= k
  {
    if |s| > k {
      CountAtMost(s[..|s| - 1], x, k, lt);
    }
  }

  // If every element outside p has at least n others before it, then sorting
  // only the elements of p gives the same first n.
  lemma PruneKeepsTopN<T(!new)>(s: seq<T>, p: T -> bool, n: nat, lt: (T, T) -> bool)
    requires WeakOrder(lt)
    requires forall x :: x in s && !p(x) ==> CountBefore(s, x, lt) >= n
    ensures TopN(Filter(s, p), n, lt) == TopN(s, n, lt)
  {
    var r := Sort(s, lt);
    SortSorts(s, lt);
    SortMultiset(s, lt);
    MultisetMembers(r, s);
    forall i | 0 <= i < n && i < |r| ensures p(r[i]) {
      CountSort(s, r[i], lt);
      forall j | i <= j < |r| ensures !lt(r[j], r[i]) {
      }
      CountAtMost(r, r[i], i, lt);
      assert r[i] in s;
    }
    SortFilter(s, p, lt);
    FilterTake(r, p, n);
  }

  // ----- renaming elements without changing their order -----

  ghost predicate OrderPreserved<T(!new), U>(s: seq<T>, f: T -> U, lt: (T, T) -> bool, lt': (U, U) -> bool) {
    forall x, y :: x in s && y in s ==> (lt(x, y) <==> lt'(f(x), f(y)))
  }

  lemma {:induction false} InsertMap<T(!new), U>(s: seq<T>, x: T, f: T -> U, lt: (T, T) -> bool, lt': (U, U) -> bool)
    requires forall y :: y in s ==> (lt(x, y) <==> lt'(f(x), f(y)))
    ensures Insert(Map(s, f), f(x), lt') == Map(Insert(s, x, lt), f)
  {
    if |s| > 0 && lt(x, s[|s| - 1]) {
      InsertMap(s[..|s| - 1], x, f, lt, lt');
      assert Map(s, f)[..|s| - 1] == Map(s[..|s| - 1], f);
    } else {
      assert Map(s + [x], f) == Map(s, f) + [f(x)];
    }
  }

  lemma MapFront<T, U>(s: seq<T>, f: T -> U)
    requires s != []
    ensures Map(s, f)[..|s| - 1] == Map(s[..|s| - 1], f)
  {
  }

  lemma {:induction false} SortMap<T(!new), U>(s: seq<T>, f: T -> U, lt: (T, T) -> bool, lt': (U, U) -> bool)
    requires OrderPreserved(s, f, lt, lt')
    ensures Sort(Map(s, f), lt') == Map(Sort(s, lt), f)
  {
    if s != [] {
      hide Insert;
      var s', last := s[..|s| - 1], s[|s| - 1];
      SortMap(s', f, lt, lt');
      MapFront(s, f);
      SortMultiset(s', lt);
      MultisetMembers(Sort(s', lt), s');
      InsertMap(Sort(s', lt), last, f, lt, lt');
    }
  }
}
