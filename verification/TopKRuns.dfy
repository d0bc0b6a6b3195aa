// Slow pages first, fast pages after: the rows of the fast part that make the
// late top-K scan go wrong, named by their keys alone.
module TopKRuns {
  import opened Sorting
  import opened SortOrder
  import KeyScan
  import opened TopKHeap
  import opened TopKOffers

  function FastOffers(rows: seq<Row>): (offers: seq<Offer>)
    ensures OfferedRows(offers) == rows && |offers| == |rows|
  {
    seq(|rows|, i requires 0 <= i < |rows| => Offer(rows[i], true))
  }

  // The fast rows with the numbers they get when base rows came before them.
  function ItemsFrom(rows: seq<Row>, base: nat): (items: seq<Item>)
    ensures |items| == |rows|
    ensures forall i :: 0 <= i < |rows| ==> items[i] == MakeItem(rows[i], base + i)
  {
    seq(|rows|, i requires 0 <= i < |rows| => MakeItem(rows[i], base + i))
  }

  predicate AllVal(rows: seq<Row>) {
    forall i :: 0 <= i < |rows| ==> rows[i].cell.Val?
  }

  // The array is full, sorted and right when the first fast row arrives.
  ghost predicate FullStart(a: seq<Offer>, xs: seq<Row>, cap: nat, desc: bool) {
    && 0 < cap <= |a| && |a| + |xs| <= SEQ_LIMIT
    && FastPathSafe(a, desc) && AllVal(xs)
  }

  function NullCount(s: seq<Item>): (n: nat)
    ensures n <= |s|
  {
    if s == [] then 0 else NullCount(s[..|s| - 1]) + (if s[|s| - 1].isNull then 1 else 0)
  }

  function NegativeCount(rows: seq<Row>): (n: nat)
    requires AllVal(rows)
  {
    if rows == [] then 0 else NegativeCount(rows[..|rows| - 1]) + (if rows[|rows| - 1].cell.v < 0 then 1 else 0)
  }

  function PositiveCount(rows: seq<Row>): (n: nat)
    requires AllVal(rows)
  {
    if rows == [] then 0 else PositiveCount(rows[..|rows| - 1]) + (if rows[|rows| - 1].cell.v > 0 then 1 else 0)
  }

  lemma JoinedOffers(a: seq<Offer>, xs: seq<Row>)
    ensures OfferedRows(a + FastOffers(xs)) == OfferedRows(a) + xs
    ensures |a| + |xs| <= SEQ_LIMIT ==> Stamped(OfferedRows(a) + xs) == Stamped(OfferedRows(a)) + ItemsFrom(xs, |a|)
  {
    if |a| + |xs| <= SEQ_LIMIT { assert forall i :: 0 <= i < |a| + |xs| ==> i % SEQ_LIMIT == i; }
  }

  lemma JoinedStep(a: seq<Offer>, xs: seq<Row>, n: nat, cap: nat, desc: bool)
    requires n < |xs| && 0 < cap && |a| + |xs| <= SEQ_LIMIT
    ensures KeptRows(a + FastOffers(xs[..n + 1]), cap, desc)
      == KeepRow(KeptRows(a + FastOffers(xs[..n]), cap, desc), MakeItem(xs[n], |a| + n), cap, true, desc)
    ensures ItemsFrom(xs[..n + 1], |a|) == ItemsFrom(xs[..n], |a|) + [MakeItem(xs[n], |a| + n)]
  {
    hide KeepRow, KeptRows, MakeItem;
    OfferStep(a + FastOffers(xs[..n]), xs[n], true);
    assert a + FastOffers(xs[..n + 1]) == a + FastOffers(xs[..n]) + [Offer(xs[n], true)];
    assert (|a| + n) % SEQ_LIMIT == |a| + n;
  }

  // ----- descending: nulls last -----

  // While fewer positive keys have come than there were nulls in the array, a
  // null is its last row, and the fast comparator keeps keys up to zero out.
  predicate Blocked(xs: seq<Row>, n: nat, z: nat)
    requires AllVal(xs) && n < |xs|
  {
    xs[n].cell.v <= 0 && PositiveCount(xs[..n]) < z
  }

  function Passes(xs: seq<Row>, base: nat, z: nat): (p: Item -> bool)
    requires AllVal(xs)
  {
    (x: Item) => base <= x.seqNo < base + |xs| ==> !Blocked(xs, x.seqNo - base, z)
  }

  // Nulls close the array, so its last row is null exactly while there are any.
  lemma {:induction false} LastIsNull(s: seq<Item>)
    requires Sorted(s, Before(true)) && s != []
    ensures s[|s| - 1].isNull <==> NullCount(s) > 0
  {
    if |s| > 1 {
      FrontSorted(s, Before(true));
      LastIsNull(s[..|s| - 1]);
      assert !Before(true)(s[|s| - 1], s[|s| - 2]);
    }
  }

  // One fast row that passes a full array whose last row is null takes the place of that null.
  lemma NullsAfter(kept: seq<Item>, x: Item, cap: nat)
    requires |kept| == cap && 0 < cap && !x.isNull
    ensures NullCount(Take(Insert(kept, x, Before(true)), cap))
      == if kept[cap - 1].isNull then NullCount(kept) - 1 else NullCount(kept)
  {
    var front, last := kept[..cap - 1], kept[cap - 1];
    InsertMultiset(front, x, Before(true));
    if Before(true)(x, last) {
      NullsOfInsert(front, x, Before(true));
      assert Take(Insert(front, x, Before(true)) + [last], cap) == Insert(front, x, Before(true));
    } else {
      assert Take(kept + [x], cap) == kept;
    }
  }

  // What holds of the array after n fast rows.
  ghost predicate DescState(a: seq<Offer>, xs: seq<Row>, n: nat, cap: nat, z: nat)
    requires AllVal(xs) && n <= |xs| && 0 < cap
  {
    var kept := KeptRows(a + FastOffers(xs[..n]), cap, true);
    && kept == TopN(Filter(Stamped(OfferedRows(a)) + ItemsFrom(xs[..n], |a|), Passes(xs, |a|, z)), cap, Before(true))
    && |kept| == cap
    && NullCount(kept) == if PositiveCount(xs[..n]) < z then z - PositiveCount(xs[..n]) else 0
  }

  lemma DescStart(a: seq<Offer>, xs: seq<Row>, cap: nat, z: nat)
    requires FullStart(a, xs, cap, true) && z == NullCount(KeptRows(a, cap, true))
    ensures DescState(a, xs, 0, cap, z)
  {
    hide TopN, KeptRows, NullCount, Filter, Before, FastPathSafe;
    var s := Stamped(OfferedRows(a));
    assert a + FastOffers(xs[..0]) == a && s + ItemsFrom(xs[..0], |a|) == s;
    KeyScan.FilterAllOrNone(s, Passes(xs, |a|, z), true) by {
      forall i | 0 <= i < |s| ensures Passes(xs, |a|, z)(s[i]) { assert i % SEQ_LIMIT == i; }
    }
    KeptRowsAreTopN(a, cap, true);
    KeptOrDropped(a, cap, true);
  }

  lemma DescStep(a: seq<Offer>, xs: seq<Row>, n: nat, cap: nat, z: nat)
    requires FullStart(a, xs, cap, true) && n < |xs| && DescState(a, xs, n, cap, z)
    ensures DescState(a, xs, n + 1, cap, z)
  {
    hide TopN, KeptRows, NullCount, Filter, KeepRow, Sort, Insert, Stamped, Take;
    var lt, p := Before(true), Passes(xs, |a|, z);
    var x := MakeItem(xs[n], |a| + n);
    var kept := KeptRows(a + FastOffers(xs[..n]), cap, true);
    var seen := Stamped(OfferedRows(a)) + ItemsFrom(xs[..n], |a|);
    JoinedStep(a, xs, n, cap, true);
    assert seen + [x] == Stamped(OfferedRows(a)) + ItemsFrom(xs[..n + 1], |a|);
    FilterAppend(seen, x, p);
    assert xs[..n + 1][..n] == xs[..n];
    BeforeIsWeakOrder(true);
    TopNSorted(Filter(seen, p), cap, lt);
    LastIsNull(kept);
    forall i | 0 <= i < cap ensures kept[i].seqNo < |a| + n && (kept[i].isNull ==> kept[i].key == 0) {
      KeptIsEarlier(a, xs, n, cap, p, kept[i]);
    }
    FastComparatorExact(x, kept[cap - 1], true);
    if Blocked(xs, n, z) {
      assert KeepRow(kept, x, cap, true, true) == kept by { DroppedKeeps(kept, x, cap); }
    } else {
      TopNStep(Filter(seen, p), x, cap, lt);
      forall i | 0 <= i < cap ensures ComparatorAgrees(true, x, kept[i], true) {
        FastComparatorExact(x, kept[i], true);
        NullsLast(kept, i);
      }
      KeepRowIsInsert(kept, x, cap, true, true);
      NullsAfter(kept, x, cap);
      TakeSize(kept, x, cap);
    }
  }

  lemma TakeSize(kept: seq<Item>, x: Item, cap: nat)
    requires |kept| == cap
    ensures |Take(Insert(kept, x, Before(true)), cap)| == cap
  {
    InsertMultiset(kept, x, Before(true));
  }

  lemma DroppedKeeps(kept: seq<Item>, x: Item, cap: nat)
    requires |kept| == cap && 0 < cap && !ItemBefore(true, x, kept[cap - 1], true)
    ensures KeepRow(kept, x, cap, true, true) == kept
  {
  }

  lemma NullsLast(s: seq<Item>, i: nat)
    requires Sorted(s, Before(true)) && i < |s|
    ensures s[i].isNull ==> s[|s| - 1].isNull
  {
    if i < |s| - 1 { assert !Before(true)(s[|s| - 1], s[i]); }
  }

  lemma KeptIsEarlier(a: seq<Offer>, xs: seq<Row>, n: nat, cap: nat, p: Item -> bool, x: Item)
    requires |a| + |xs| <= SEQ_LIMIT && n <= |xs|
    requires x in TopN(Filter(Stamped(OfferedRows(a)) + ItemsFrom(xs[..n], |a|), p), cap, Before(true))
    ensures x.seqNo < |a| + n && (x.isNull ==> x.key == 0)
  {
    hide TopN, Filter, Before;
    var seen := Stamped(OfferedRows(a)) + ItemsFrom(xs[..n], |a|);
    BeforeIsWeakOrder(true);
    TopNSorted(Filter(seen, p), cap, Before(true));
    FilterMembers(seen, p);
    SeenIsEarlier(a, xs, n, x);
  }

  lemma SeenIsEarlier(a: seq<Offer>, xs: seq<Row>, n: nat, x: Item)
    requires |a| + |xs| <= SEQ_LIMIT && n <= |xs| && x in Stamped(OfferedRows(a)) + ItemsFrom(xs[..n], |a|)
    ensures x.seqNo < |a| + n && (x.isNull ==> x.key == 0)
  {
    var slow, fast := Stamped(OfferedRows(a)), ItemsFrom(xs[..n], |a|);
    if x in slow {
      var i :| 0 <= i < |slow| && slow[i] == x;
      assert i % SEQ_LIMIT == i;
    } else {
      var i :| 0 <= i < |fast| && fast[i] == x;
    }
  }

  lemma {:induction false} DescRun(a: seq<Offer>, xs: seq<Row>, n: nat, cap: nat, z: nat)
    requires FullStart(a, xs, cap, true) && z == NullCount(KeptRows(a, cap, true)) && n <= |xs|
    ensures DescState(a, xs, n, cap, z)
  {
    hide DescState, KeptRows, NullCount;
    if n == 0 {
      DescStart(a, xs, cap, z);
    } else {
      DescRun(a, xs, n - 1, cap, z);
      DescStep(a, xs, n - 1, cap, z);
    }
  }

  // Descending, the run is right if and only if every blocked row is pushed
  // out again: at least cap rows of the whole scan come before it.
  lemma DescRunExact(a: seq<Offer>, xs: seq<Row>, cap: nat)
    requires FullStart(a, xs, cap, true)
    ensures var z, s := NullCount(KeptRows(a, cap, true)), Stamped(OfferedRows(a) + xs);
      NothingLost(a + FastOffers(xs), cap, true)
      <==> (forall n :: 0 <= n < |xs| && Blocked(xs, n, z) ==> CountBefore(s, s[|a| + n], Before(true)) >= cap)
  {
    hide NothingLost, KeptRows, TopN, NullCount, Stamped, CountBefore, Filter, Tieless, Distinct, FastPathSafe, WeakOrder;
    var z, lt := NullCount(KeptRows(a, cap, true)), Before(true);
    var s, p := Stamped(OfferedRows(a) + xs), Passes(xs, |a|, z);
    JoinedOffers(a, xs);
    assert xs[..|xs|] == xs;
    DescRun(a, xs, |xs|, cap, z);
    KeptExact(a + FastOffers(xs), cap, true);
    StampedDistinct(OfferedRows(a) + xs, true);
    if NothingLost(a + FastOffers(xs), cap, true) {
      forall n | 0 <= n < |xs| && Blocked(xs, n, z) ensures CountBefore(s, s[|a| + n], lt) >= cap {
        var x := s[|a| + n];
        assert x == MakeItem(xs[n], |a| + n) && !p(x);
        FilterMembers(s, p);
        TopNSorted(Filter(s, p), cap, lt);
        MultisetMembers(TopN(Filter(s, p), cap, lt), TopN(s, cap, lt));
        TopNIff(s, cap, lt, x);
      }
    }
    if forall n :: 0 <= n < |xs| && Blocked(xs, n, z) ==> CountBefore(s, s[|a| + n], lt) >= cap {
      forall x | x in s && !p(x) ensures CountBefore(s, x, lt) >= cap {
        var i :| 0 <= i < |s| && s[i] == x;
        PositionIsNumber(a, xs, i);
      }
      PruneKeepsTopN(s, p, cap, lt);
    }
  }

  lemma PositionIsNumber(a: seq<Offer>, xs: seq<Row>, i: nat)
    requires |a| + |xs| <= SEQ_LIMIT && i < |a| + |xs|
    ensures Stamped(OfferedRows(a) + xs)[i].seqNo == i
  {
    assert i % SEQ_LIMIT == i;
  }

  // ----- ascending: nulls first -----

  // The order the fast comparator stands for: nulls are zeros in front of the other zeros.
  function NullAsZero(): (lt: (Item, Item) -> bool) {
    (a: Item, b: Item) => a.key < b.key || (a.key == b.key && CmpItem(a, b, false) < 0)
  }

  lemma NullAsZeroIsWeakOrder()
    ensures WeakOrder(NullAsZero())
  {
  }

  ghost predicate NullsAreZero(s: seq<Item>) {
    forall x :: x in s && x.isNull ==> x.key == 0
  }

  // No negative key in the array, unless it holds no null at all.
  ghost predicate NoNegativeKept(kept: seq<Item>) {
    NullCount(kept) == 0 || forall x :: x in kept ==> x.key >= 0
  }

  lemma {:induction false} NoNulls(s: seq<Item>)
    ensures NullCount(s) == 0 <==> forall x :: x in s ==> !x.isNull
  {
    if s != [] {
      NoNulls(s[..|s| - 1]);
      FrontLast(s);
    }
  }

  lemma SortedAsZeros(kept: seq<Item>)
    requires Sorted(kept, Before(false)) && NullsAreZero(kept) && NoNegativeKept(kept)
    ensures Sorted(kept, NullAsZero())
  {
    NoNulls(kept);
    forall i, j | 0 <= i < j < |kept| ensures !NullAsZero()(kept[j], kept[i]) {
      assert kept[i] in kept && kept[j] in kept;
      assert !Before(false)(kept[j], kept[i]);
    }
  }

  // What one fast row does to an array in that order.
  lemma ZeroStep(kept: seq<Item>, x: Item, cap: nat)
    requires 0 < cap && |kept| <= cap && Sorted(kept, NullAsZero()) && NullsAreZero(kept)
    requires !x.isNull && forall y :: y in kept ==> y.seqNo < x.seqNo
    ensures KeepRow(kept, x, cap, true, false) == Take(Insert(kept, x, NullAsZero()), cap)
  {
    hide Insert, Sorted;
    NullAsZeroIsWeakOrder();
    forall i | 0 <= i < |kept| ensures Ahead(true, x, false)(kept[i]) == NullAsZero()(x, kept[i]) {
      assert kept[i] in kept;
    }
    KeepIsInsert(kept, x, cap, Ahead(true, x, false), NullAsZero());
  }

  // The array that the fast rows find, with its first rows in sort order.
  ghost predicate AscStart(kept: seq<Item>, cap: nat, base: nat) {
    && 0 < cap == |kept|
    && Sorted(kept, Before(false)) && NullsAreZero(kept) && NoNegativeKept(kept)
    && Distinct(kept) && forall y :: y in kept ==> y.seqNo < base
  }

  lemma JoinedDistinct(kept: seq<Item>, xs: seq<Row>, base: nat)
    requires Distinct(kept) && DistinctSeqNos(kept) && forall y :: y in kept ==> y.seqNo < base
    ensures Distinct(kept + ItemsFrom(xs, base)) && DistinctSeqNos(kept + ItemsFrom(xs, base))
  {
    var s := kept + ItemsFrom(xs, base);
    forall i | 0 <= i < |s| ensures if i < |kept| then s[i] in kept && s[i].seqNo < base else s[i].seqNo == base + i - |kept| {
      assert i < |kept| ==> s[i] == kept[i];
    }
    forall i, j | 0 <= i < j < |s| ensures s[i].seqNo != s[j].seqNo {
      assert i < |kept| && j < |kept| ==> kept[i] != kept[j];
    }
    forall x, y | x in s && y in s && x != y ensures x.seqNo != y.seqNo {
      var i :| 0 <= i < |s| && s[i] == x;
      var j :| 0 <= j < |s| && s[j] == y;
    }
  }

  // The array after n fast rows: the first cap rows in the order with nulls as zeros.
  lemma {:induction false} AscRun(a: seq<Offer>, xs: seq<Row>, n: nat, cap: nat)
    requires FullStart(a, xs, cap, false) && n <= |xs|
    requires AscStart(KeptRows(a, cap, false), cap, |a|) && DistinctSeqNos(KeptRows(a, cap, false))
    ensures KeptRows(a + FastOffers(xs[..n]), cap, false)
      == TopN(KeptRows(a, cap, false) + ItemsFrom(xs[..n], |a|), cap, NullAsZero())
  {
    hide KeptRows, TopN, KeepRow, Insert, Take, NullsAreZero, NoNegativeKept, FastPathSafe, Before, NullAsZero, Distinct, DistinctSeqNos;
    var kept := KeptRows(a, cap, false);
    NullAsZeroIsWeakOrder();
    if n == 0 {
      assert a + FastOffers(xs[..0]) == a && kept + ItemsFrom(xs[..0], |a|) == kept;
      SortedAsZeros(kept);
      SortedIsTop(kept, cap);
    } else {
      AscRun(a, xs, n - 1, cap);
      JoinedStep(a, xs, n - 1, cap, false);
      var seen, x := kept + ItemsFrom(xs[..n - 1], |a|), MakeItem(xs[n - 1], |a| + n - 1);
      assert kept + ItemsFrom(xs[..n], |a|) == seen + [x];
      TopNStep(seen, x, cap, NullAsZero());
      TopNSorted(seen, cap, NullAsZero());
      SeenBefore(kept, xs[..n - 1], |a|);
      KeptSize(a + FastOffers(xs[..n - 1]), cap);
      NullsOfTop(seen, cap);
      ZeroStep(TopN(seen, cap, NullAsZero()), x, cap);
    }
  }

  lemma NullsOfTop(seen: seq<Item>, cap: nat)
    requires NullsAreZero(seen)
    ensures NullsAreZero(TopN(seen, cap, NullAsZero()))
  {
    NullAsZeroIsWeakOrder();
    TopNSorted(seen, cap, NullAsZero());
  }

  lemma KeptSize(offers: seq<Offer>, cap: nat)
    requires 0 < cap
    ensures |KeptRows(offers, cap, false)| <= cap
  {
  }

  lemma SeenBefore(kept: seq<Item>, xs: seq<Row>, base: nat)
    requires NullsAreZero(kept) && forall y :: y in kept ==> y.seqNo < base
    ensures NullsAreZero(kept + ItemsFrom(xs, base)) && forall y :: y in kept + ItemsFrom(xs, base) ==> y.seqNo < base + |xs|
  {
  }

  lemma SortedIsTop(kept: seq<Item>, cap: nat)
    requires |kept| == cap && Sorted(kept, NullAsZero()) && DistinctSeqNos(kept)
    ensures TopN(kept, cap, NullAsZero()) == kept
  {
    NullAsZeroIsWeakOrder();
    AnySortIsSort(kept, kept, NullAsZero());
  }

  // ----- who comes before whom, counted by sign -----

  function NegativeItems(s: seq<Item>): (n: nat)
    ensures n <= |s|
  {
    if s == [] then 0 else NegativeItems(s[..|s| - 1]) + (if s[|s| - 1].key < 0 then 1 else 0)
  }

  lemma {:induction false} CountOfNull(s: seq<Item>, x: Item)
    requires NullsAreZero(s) && x.isNull && x.key == 0
    ensures CountBefore(s, x, NullAsZero()) == CountBefore(s, x, Before(false)) + NegativeItems(s)
    ensures x in s ==> CountBefore(s, x, Before(false)) < NullCount(s)
    ensures CountBefore(s, x, Before(false)) <= NullCount(s)
  {
    if s != [] {
      FrontLast(s);
      assert s[|s| - 1] in s;
      CountOfNull(s[..|s| - 1], x);
    }
  }

  lemma {:induction false} CountOfNegative(s: seq<Item>, x: Item)
    requires NullsAreZero(s) && !x.isNull && x.key < 0
    ensures CountBefore(s, x, Before(false)) == CountBefore(s, x, NullAsZero()) + NullCount(s)
    ensures x in s ==> CountBefore(s, x, NullAsZero()) < NegativeItems(s)
    ensures CountBefore(s, x, NullAsZero()) <= NegativeItems(s)
  {
    if s != [] {
      FrontLast(s);
      assert s[|s| - 1] in s;
      CountOfNegative(s[..|s| - 1], x);
    }
  }

  lemma {:induction false} CountOfOther(s: seq<Item>, x: Item)
    requires NullsAreZero(s) && !x.isNull && (x.key >= 0 || NullCount(s) == 0)
    ensures CountBefore(s, x, Before(false)) == CountBefore(s, x, NullAsZero())
  {
    if s != [] {
      FrontLast(s);
      assert s[|s| - 1] in s;
      CountOfOther(s[..|s| - 1], x);
    }
  }

  lemma CountsSettle(s: seq<Item>, cap: nat, x: Item)
    requires NullsAreZero(s) && x in s
    requires NullCount(s) == 0 || NullCount(s) + NegativeItems(s) <= cap
    ensures CountBefore(s, x, Before(false)) < cap <==> CountBefore(s, x, NullAsZero()) < cap
  {
    if x.isNull {
      CountOfNull(s, x);
    } else if x.key < 0 && NullCount(s) > 0 {
      CountOfNegative(s, x);
    } else {
      CountOfOther(s, x);
    }
  }

  // Of the nulls of s, the last one in arrival order has all the others before it.
  lemma LastNull(s: seq<Item>) returns (x: Item)
    requires NullCount(s) > 0 && DistinctSeqNos(s) && Distinct(s)
    ensures x in s && x.isNull && CountBefore(s, x, Before(false)) == NullCount(s) - 1
  {
    hide CountBefore, Sort, NullCount, Sorted, Before, Tieless, Distinct, DistinctSeqNos, WeakOrder;
    var r := Sort(s, Before(false));
    BeforeIsWeakOrder(false);
    DistinctIsTieless(s, false);
    SortDistinct(s, Before(false));
    NullsOfSort(s, Before(false));
    SortSorts(s, Before(false));
    NullsFirst(r, |r|);
    x := r[NullCount(s) - 1];
    SortedCount(s, Before(false), NullCount(s) - 1);
  }

  lemma {:induction false} NullsOfInsert(s: seq<Item>, x: Item, lt: (Item, Item) -> bool)
    ensures NullCount(Insert(s, x, lt)) == NullCount(s) + (if x.isNull then 1 else 0)
  {
    if |s| > 0 && lt(x, s[|s| - 1]) {
      var r := Insert(s[..|s| - 1], x, lt);
      NullsOfInsert(s[..|s| - 1], x, lt);
      assert (r + [s[|s| - 1]])[..|r|] == r;
    } else {
      assert (s + [x])[..|s|] == s;
    }
  }

  lemma {:induction false} NullsOfSort(s: seq<Item>, lt: (Item, Item) -> bool)
    ensures NullCount(Sort(s, lt)) == NullCount(s)
  {
    if s != [] {
      NullsOfSort(s[..|s| - 1], lt);
      NullsOfInsert(Sort(s[..|s| - 1], lt), s[|s| - 1], lt);
    }
  }

  // In ascending order the nulls are the front of the list.
  lemma {:induction false} NullsFirst(r: seq<Item>, n: nat)
    requires Sorted(r, Before(false)) && n <= |r|
    ensures forall i :: 0 <= i < n ==> (r[i].isNull <==> i < NullCount(r[..n]))
    ensures r[..|r|] == r
  {
    if n > 0 {
      NullsFirst(r, n - 1);
      assert r[..n][..n - 1] == r[..n - 1];
      if r[n - 1].isNull {
        forall i | 0 <= i < n - 1 ensures r[i].isNull { assert !Before(false)(r[n - 1], r[i]); }
        if n > 1 { assert NullCount(r[..n - 1]) > n - 2; }
      }
    }
  }

  // ----- the condition -----

  lemma {:induction false} TopNSplit(s: seq<Item>, t: seq<Item>, cap: nat, lt: (Item, Item) -> bool)
    requires WeakOrder(lt) && Tieless(s, lt)
    ensures TopN(s + t, cap, lt) == TopN(TopN(s, cap, lt) + t, cap, lt)
  {
    if t == [] {
      assert s + t == s && TopN(s, cap, lt) + t == TopN(s, cap, lt);
      TopNSorted(s, cap, lt);
      AnySortIsSort(TopN(s, cap, lt), TopN(s, cap, lt), lt);
    } else {
      var n := |t| - 1;
      TopNSplit(s, t[..n], cap, lt);
      assert s + t == s + t[..n] + [t[n]];
      assert TopN(s, cap, lt) + t == TopN(s, cap, lt) + t[..n] + [t[n]];
      TopNStep(s + t[..n], t[n], cap, lt);
      TopNStep(TopN(s, cap, lt) + t[..n], t[n], cap, lt);
    }
  }

  lemma {:induction false} JoinedCounts(kept: seq<Item>, xs: seq<Row>, base: nat)
    requires AllVal(xs)
    ensures NullCount(kept + ItemsFrom(xs, base)) == NullCount(kept)
    ensures NegativeItems(kept + ItemsFrom(xs, base)) == NegativeItems(kept) + NegativeCount(xs)
  {
    if xs == [] {
      assert kept + ItemsFrom(xs, base) == kept;
    } else {
      var n := |xs| - 1;
      JoinedCounts(kept, xs[..n], base);
      var s := kept + ItemsFrom(xs, base);
      assert s[..|s| - 1] == kept + ItemsFrom(xs[..n], base);
    }
  }

  lemma {:induction false} NoNegatives(s: seq<Item>)
    requires forall x :: x in s ==> x.key >= 0
    ensures NegativeItems(s) == 0
  {
    if s != [] {
      FrontLast(s);
      assert s[|s| - 1] in s;
      NoNegatives(s[..|s| - 1]);
    }
  }

  // The two orders pick the same rows exactly when the negatives leave room for all nulls.
  lemma OrdersAgree(s: seq<Item>, cap: nat)
    requires NullsAreZero(s) && DistinctSeqNos(s) && Distinct(s) && NullCount(s) <= cap
    ensures multiset(TopN(s, cap, NullAsZero())) == multiset(TopN(s, cap, Before(false)))
      <==> NullCount(s) == 0 || NullCount(s) + NegativeItems(s) <= cap
  {
    hide TopN, CountBefore, NullCount, NegativeItems, NullsAreZero, Distinct, WeakOrder, Tieless, DistinctSeqNos;
    var a, b := TopN(s, cap, NullAsZero()), TopN(s, cap, Before(false));
    BothTieless(s);
    forall x ensures x in a <==> x in s && CountBefore(s, x, NullAsZero()) < cap { TopNIff(s, cap, NullAsZero(), x); }
    forall x ensures x in b <==> x in s && CountBefore(s, x, Before(false)) < cap { TopNIff(s, cap, Before(false), x); }
    var some := Item(0, false, 0, 0, 0, 0);
    TopNIff(s, cap, NullAsZero(), some);
    TopNIff(s, cap, Before(false), some);
    if NullCount(s) == 0 || NullCount(s) + NegativeItems(s) <= cap {
      forall x | x in a ensures x in b { CountsSettle(s, cap, x); }
      SubsetOfDistinct(a, b);
    }
    if multiset(a) == multiset(b) && NullCount(s) > 0 {
      var x := LastNull(s);
      NullKey(s, x);
      CountOfNull(s, x);
      MultisetMembers(a, b);
    }
  }

  lemma NullKey(s: seq<Item>, x: Item)
    requires NullsAreZero(s) && x in s && x.isNull
    ensures x.key == 0
  {
  }

  lemma BothTieless(s: seq<Item>)
    requires DistinctSeqNos(s)
    ensures WeakOrder(NullAsZero()) && WeakOrder(Before(false)) && Tieless(s, NullAsZero()) && Tieless(s, Before(false))
  {
    NullAsZeroIsWeakOrder();
    BeforeIsWeakOrder(false);
  }

  lemma StartOf(a: seq<Offer>, xs: seq<Row>, cap: nat)
    requires FullStart(a, xs, cap, false) && NoNegativeKept(KeptRows(a, cap, false))
    ensures var kept := KeptRows(a, cap, false);
      && kept == TopN(Stamped(OfferedRows(a)), cap, Before(false))
      && AscStart(kept, cap, |a|) && DistinctSeqNos(kept)
  {
    hide KeptRows, TopN, NoNegativeKept, FastPathSafe;
    var s := Stamped(OfferedRows(a));
    KeptRowsAreTopN(a, cap, false);
    KeptOrDropped(a, cap, false);
    StampedDistinct(OfferedRows(a), false);
    StampedIsNumbered(OfferedRows(a));
    TopNSorted(s, cap, Before(false));
    TopNIff(s, cap, Before(false), Item(0, false, 0, 0, 0, 0));
  }

  // Ascending, and with no negative key among the rows kept so far, the run is
  // right if and only if there is no null in the array or the negative keys
  // still to come leave room for all its nulls.
  lemma AscRunExact(a: seq<Offer>, xs: seq<Row>, cap: nat)
    requires FullStart(a, xs, cap, false) && NoNegativeKept(KeptRows(a, cap, false))
    ensures var z := NullCount(KeptRows(a, cap, false));
      NothingLost(a + FastOffers(xs), cap, false) <==> z == 0 || z + NegativeCount(xs) <= cap
  {
    hide KeptRows, TopN, NothingLost, NoNegativeKept, FastPathSafe, NullCount, NegativeItems, NullsAreZero, Distinct, Tieless, WeakOrder, Stamped, DistinctSeqNos, Sorted;
    var kept := KeptRows(a, cap, false);
    var s := kept + ItemsFrom(xs, |a|);
    StartOf(a, xs, cap);
    assert xs[..|xs|] == xs;
    AscRun(a, xs, |xs|, cap);
    JoinedOffers(a, xs);
    StampedDistinct(OfferedRows(a), false);
    TopNSplit(Stamped(OfferedRows(a)), ItemsFrom(xs, |a|), cap, Before(false));
    KeptExact(a + FastOffers(xs), cap, false);
    JoinedDistinct(kept, xs, |a|);
    SeenBefore(kept, xs, |a|);
    JoinedCounts(kept, xs, |a|);
    NoNegativesKept(kept);
    OrdersAgree(s, cap);
  }

  lemma NoNegativesKept(kept: seq<Item>)
    requires NoNegativeKept(kept)
    ensures NullCount(kept) == 0 || NegativeItems(kept) == 0
  {
    if NullCount(kept) != 0 { NoNegatives(kept); }
  }

  // ----- the same in terms of the rows alone -----

  function NullRows(rows: seq<Row>): (n: nat)
    ensures n <= |rows|
  {
    if rows == [] then 0 else NullRows(rows[..|rows| - 1]) + (if rows[|rows| - 1].cell.Null? then 1 else 0)
  }

  // How many nulls are among the first cap of at least cap rows.
  function NullsKept(rows: seq<Row>, cap: nat, desc: bool): (z: nat) {
    var nulls := NullRows(rows);
    if desc then (if cap > |rows| - nulls then cap - (|rows| - nulls) else 0)
    else if nulls < cap then nulls else cap
  }

  lemma {:induction false} NullsStamped(rows: seq<Row>)
    ensures NullCount(Stamped(rows)) == NullRows(rows)
  {
    if rows != [] {
      var n := |rows| - 1;
      NullsStamped(rows[..n]);
      assert rows == rows[..n] + [rows[n]];
      StampedStep(rows[..n], rows[n]);
      assert (Stamped(rows[..n]) + [MakeItem(rows[n], n % SEQ_LIMIT)])[..n] == Stamped(rows[..n]);
    }
  }

  // A sorted list has its nulls at one end.
  lemma {:induction false} NullsOfPrefix(r: seq<Item>, n: nat, desc: bool)
    requires Sorted(r, Before(desc)) && n <= |r|
    ensures var z := NullCount(r);
      NullCount(r[..n]) == if desc then (if n > |r| - z then n - (|r| - z) else 0) else if z < n then z else n
    decreases |r|
  {
    if n == |r| {
      assert r[..n] == r;
    } else {
      var front, last := r[..|r| - 1], r[|r| - 1];
      FrontSorted(r, Before(desc));
      assert front[..n] == r[..n];
      NullsOfPrefix(front, n, desc);
      if last.isNull != desc { OneKind(r, desc); }
    }
  }

  // Ascending, a null at the end means that all are null; descending, a value there that none is.
  lemma {:induction false} OneKind(r: seq<Item>, desc: bool)
    requires Sorted(r, Before(desc)) && r != [] && r[|r| - 1].isNull != desc
    ensures NullCount(r) == if desc then 0 else |r|
  {
    if |r| > 1 {
      FrontSorted(r, Before(desc));
      assert !Before(desc)(r[|r| - 1], r[|r| - 2]);
      OneKind(r[..|r| - 1], desc);
    }
  }

  lemma KeptNulls(a: seq<Offer>, cap: nat, desc: bool)
    requires 0 < cap <= |a| && FastPathSafe(a, desc)
    ensures NullCount(KeptRows(a, cap, desc)) == NullsKept(OfferedRows(a), cap, desc)
  {
    hide KeptRows, Stamped, NullCount, NullRows, FastPathSafe, Sort, Sorted;
    var s, lt := Stamped(OfferedRows(a)), Before(desc);
    KeptRowsAreTopN(a, cap, desc);
    BeforeIsWeakOrder(desc);
    SortSorts(s, lt);
    SortMultiset(s, lt);
    NullsOfSort(s, lt);
    NullsStamped(OfferedRows(a));
    NullsOfPrefix(Sort(s, lt), cap, desc);
  }

  predicate NoNegativeRow(rows: seq<Row>) {
    forall i :: 0 <= i < |rows| ==> rows[i].cell.Val? ==> rows[i].cell.v >= 0
  }

  lemma {:induction false} AllNulls(s: seq<Item>)
    requires NullCount(s) == |s|
    ensures forall x :: x in s ==> x.isNull
  {
    if s != [] {
      FrontLast(s);
      AllNulls(s[..|s| - 1]);
    }
  }

  lemma KeptNoNegative(a: seq<Offer>, cap: nat)
    requires 0 < cap <= |a| && FastPathSafe(a, false)
    requires var z := NullRows(OfferedRows(a)); z == 0 || z >= cap || NoNegativeRow(OfferedRows(a))
    ensures NoNegativeKept(KeptRows(a, cap, false))
  {
    hide KeptRows, Stamped, NullCount, NullRows, FastPathSafe;
    var s, kept := Stamped(OfferedRows(a)), KeptRows(a, cap, false);
    KeptNulls(a, cap, false);
    KeptRowsAreTopN(a, cap, false);
    BeforeIsWeakOrder(false);
    TopNSorted(s, cap, Before(false));
    if NullCount(kept) == |kept| { AllNulls(kept); }
    forall x | x in s ensures x.isNull ==> x.key == 0 {
      var i :| 0 <= i < |s| && s[i] == x;
    }
    forall x | x in s && !x.isNull && NoNegativeRow(OfferedRows(a)) ensures x.key >= 0 {
      var i :| 0 <= i < |s| && s[i] == x;
    }
    KeptOrDropped(a, cap, false);
  }

  // Rows from m on come through the fast comparator; what was before them was safe.
  ghost predicate SlowThenFast(offers: seq<Offer>, m: nat, cap: nat, desc: bool) {
    && 0 < cap <= m <= |offers| <= SEQ_LIMIT
    && FastPathSafe(offers[..m], desc)
    && forall i :: m <= i < |offers| ==> offers[i].noNull && offers[i].row.cell.Val?
  }

  // No row up to zero that comes before the nulls have been pushed out belongs to the first cap rows.
  ghost predicate BlockedRowsAreLate(rows: seq<Row>, m: nat, cap: nat)
    requires m <= |rows| && AllVal(rows[m..])
  {
    forall n :: 0 <= n < |rows[m..]| && Blocked(rows[m..], n, NullsKept(rows[..m], cap, true)) ==>
      CountBefore(Stamped(rows), Stamped(rows)[m + n], Before(true)) >= cap
  }

  lemma SplitOffers(offers: seq<Offer>, m: nat, cap: nat, desc: bool)
    requires SlowThenFast(offers, m, cap, desc)
    ensures var rows := OfferedRows(offers);
      && offers == offers[..m] + FastOffers(rows[m..]) && FullStart(offers[..m], rows[m..], cap, desc)
      && OfferedRows(offers[..m]) == rows[..m] && rows == rows[..m] + rows[m..]
  {
    hide FastPathSafe, OfferedRows, FastOffers;
    OfferedSlices(offers, m);
    forall i | 0 <= i < |offers[m..]| ensures offers[m..][i].noNull && offers[m..][i].row.cell.Val? { assert offers[m..][i] == offers[m + i]; }
    FastTail(offers[m..]);
    assert offers == offers[..m] + offers[m..];
  }

  lemma OfferedSlices(offers: seq<Offer>, m: nat)
    requires m <= |offers|
    ensures var rows := OfferedRows(offers);
      OfferedRows(offers[m..]) == rows[m..] && OfferedRows(offers[..m]) == rows[..m] && rows == rows[..m] + rows[m..]
  {
  }

  lemma FastTail(offers: seq<Offer>)
    requires forall i :: 0 <= i < |offers| ==> offers[i].noNull && offers[i].row.cell.Val?
    ensures offers == FastOffers(OfferedRows(offers)) && AllVal(OfferedRows(offers))
  {
    assert forall i :: 0 <= i < |offers| ==> offers[i] == Offer(offers[i].row, true);
  }

  lemma DescRows(offers: seq<Offer>, m: nat, cap: nat)
    requires SlowThenFast(offers, m, cap, true)
    ensures AllVal(OfferedRows(offers)[m..])
    ensures NothingLost(offers, cap, true) <==> BlockedRowsAreLate(OfferedRows(offers), m, cap)
  {
    hide NothingLost, KeptRows, NullCount, Stamped, CountBefore, FastPathSafe, NullsKept, Blocked, Before, OfferedRows, FastOffers;
    var rows := OfferedRows(offers);
    SplitOffers(offers, m, cap, true);
    DescRunExact(offers[..m], rows[m..], cap);
    KeptNulls(offers[..m], cap, true);
  }

  // Ascending: the nulls and the negative keys still to come fit the array together.
  predicate NegativesFit(rows: seq<Row>, m: nat, cap: nat)
    requires m <= |rows| && AllVal(rows[m..])
  {
    var z := NullsKept(rows[..m], cap, false);
    z == 0 || z + NegativeCount(rows[m..]) <= cap
  }

  lemma AscRows(offers: seq<Offer>, m: nat, cap: nat)
    requires SlowThenFast(offers, m, cap, false)
    requires var z := NullRows(OfferedRows(offers)[..m]); z == 0 || z >= cap || NoNegativeRow(OfferedRows(offers)[..m])
    ensures AllVal(OfferedRows(offers)[m..])
    ensures NothingLost(offers, cap, false) <==> NegativesFit(OfferedRows(offers), m, cap)
  {
    hide NothingLost, KeptRows, NullCount, FastPathSafe, NullsKept, NullRows, NoNegativeKept;
    var rows := OfferedRows(offers);
    SplitOffers(offers, m, cap, false);
    KeptNulls(offers[..m], cap, false);
    KeptNoNegative(offers[..m], cap);
    AscRunExact(offers[..m], rows[m..], cap);
  }
}
