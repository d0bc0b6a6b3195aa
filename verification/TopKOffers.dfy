// A stream of rows offered to the sorted array of the top-K operators: which
// rows it keeps, which it drops, and exactly when the kept ones are the right ones.
module TopKOffers {
  import opened Sorting
  import opened SortOrder
  import opened TopKHeap

  // A row offered to the bounded container, and whether its page took the fast path.
  datatype Offer = Offer(row: Row, noNull: bool)

  function OfferedRows(offers: seq<Offer>): (rows: seq<Row>)
    ensures |rows| == |offers|
  {
    Map(offers, (o: Offer) => o.row)
  }

  // The sorted array after all offers.
  function KeptRows(offers: seq<Offer>, cap: nat, desc: bool): (kept: seq<Item>)
    requires 0 < cap
    ensures |kept| <= cap
  {
    if offers == [] then []
    else
      var n := |offers| - 1;
      KeepRow(KeptRows(offers[..n], cap, desc), MakeItem(offers[n].row, n % SEQ_LIMIT), cap, offers[n].noNull, desc)
  }

  // Keys that the fast comparator ranks rightly against a null, which it reads as 0.
  predicate RightOfNulls(v: int, desc: bool) {
    if desc then v > 0 else v >= 0
  }

  // A fast-path row that arrives behind a null has a key on the right side of zero.
  predicate FastPathSafe(offers: seq<Offer>, desc: bool) {
    forall i, j :: 0 <= i <= j < |offers| && offers[j].noNull ==>
      offers[j].row.cell.Val? && (offers[i].row.cell.Val? || (|offers| <= SEQ_LIMIT && RightOfNulls(offers[j].row.cell.v, desc)))
  }

  lemma {:induction false} TopNMembers(rows: seq<Row>, n: nat, desc: bool, x: Item) returns (i: nat)
    requires x in TopN(Stamped(rows), n, Before(desc))
    ensures i < |rows| && x == MakeItem(rows[i], i % SEQ_LIMIT)
  {
    var items := Stamped(rows);
    TakeMembers(Sort(items, Before(desc)), n);
    SortMultiset(items, Before(desc));
    MultisetMembers(Sort(items, Before(desc)), items);
    assert x in items;
    i :| 0 <= i < |rows| && items[i] == x;
  }

  lemma SafeAgrees(offers: seq<Offer>, i: nat, n: nat, desc: bool)
    requires i < n < |offers| && FastPathSafe(offers, desc)
    ensures ComparatorAgrees(offers[n].noNull, MakeItem(offers[n].row, n % SEQ_LIMIT), MakeItem(offers[i].row, i % SEQ_LIMIT), desc)
  {
    var item, kept := MakeItem(offers[n].row, n % SEQ_LIMIT), MakeItem(offers[i].row, i % SEQ_LIMIT);
    if offers[n].noNull {
      if offers[i].row.cell.Val? {
        CmpIsTotalOrder(item, kept, item, desc);
      } else {
        assert i % SEQ_LIMIT == i && n % SEQ_LIMIT == n;
        FastComparatorExact(item, kept, desc);
      }
    }
  }

  lemma SafePrefix(offers: seq<Offer>, n: nat, desc: bool)
    requires n <= |offers| && FastPathSafe(offers, desc)
    ensures FastPathSafe(offers[..n], desc)
  {
  }

  // One more row keeps the array at the first cap rows when the comparator in use agrees on every row so far.
  lemma TopNKept(rows: seq<Row>, last: Offer, cap: nat, desc: bool)
    requires 0 < cap
    requires var item := MakeItem(last.row, |rows| % SEQ_LIMIT);
      forall i :: 0 <= i < |rows| ==> ComparatorAgrees(last.noNull, item, MakeItem(rows[i], i % SEQ_LIMIT), desc)
    ensures KeepRow(TopN(Stamped(rows), cap, Before(desc)), MakeItem(last.row, |rows| % SEQ_LIMIT), cap, last.noNull, desc)
      == TopN(Stamped(rows + [last.row]), cap, Before(desc))
  {
    hide Insert, Sort, KeepRow, ComparatorAgrees, MakeItem, WeakOrder;
    var item, kept := MakeItem(last.row, |rows| % SEQ_LIMIT), TopN(Stamped(rows), cap, Before(desc));
    StampedStep(rows, last.row);
    BeforeIsWeakOrder(desc);
    TopNStep(Stamped(rows), item, cap, Before(desc));
    SortSorts(Stamped(rows), Before(desc));
    forall k | 0 <= k < |kept| ensures ComparatorAgrees(last.noNull, item, kept[k], desc) {
      var i := TopNMembers(rows, cap, desc, kept[k]);
    }
    KeepRowIsInsert(kept, item, cap, last.noNull, desc);
  }

  // The sorted array holds exactly the first cap rows, as long as the fast path is safe.
  lemma {:induction false} KeptRowsAreTopN(offers: seq<Offer>, cap: nat, desc: bool)
    requires 0 < cap && FastPathSafe(offers, desc)
    ensures KeptRows(offers, cap, desc) == TopN(Stamped(OfferedRows(offers)), cap, Before(desc))
  {
    hide TopN, KeepRow, KeptRows, FastPathSafe, Stamped, MakeItem, ComparatorAgrees, OfferedRows, Before;
    if offers == [] {
      NothingKept(cap, desc);
    } else {
      var n := |offers| - 1;
      var before, last := offers[..n], offers[n];
      var rows := OfferedRows(before);
      assert offers == before + [last];
      SafePrefix(offers, n, desc);
      KeptRowsAreTopN(before, cap, desc);
      OfferStep(before, last.row, last.noNull);
      forall i | 0 <= i < n
        ensures ComparatorAgrees(last.noNull, MakeItem(last.row, n % SEQ_LIMIT), MakeItem(rows[i], i % SEQ_LIMIT), desc)
      {
        SafeAgrees(offers, i, n, desc);
        OfferedRow(before, i);
      }
      TopNKept(rows, last, cap, desc);
    }
  }

  lemma NothingKept(cap: nat, desc: bool)
    requires 0 < cap
    ensures KeptRows([], cap, desc) == TopN(Stamped(OfferedRows([])), cap, Before(desc))
  {
  }

  lemma OfferedRow(offers: seq<Offer>, i: nat)
    requires i < |offers|
    ensures OfferedRows(offers)[i] == offers[i].row
  {
  }

  lemma OfferStep(offers: seq<Offer>, row: Row, noNull: bool)
    ensures OfferedRows(offers + [Offer(row, noNull)]) == OfferedRows(offers) + [row]
    ensures forall cap: nat, desc :: 0 < cap ==>
      KeptRows(offers + [Offer(row, noNull)], cap, desc)
        == KeepRow(KeptRows(offers, cap, desc), MakeItem(row, |offers| % SEQ_LIMIT), cap, noNull, desc)
  {
    assert (offers + [Offer(row, noNull)])[..|offers|] == offers;
  }

  // ----- the rows dropped on the way -----

  function DroppedAt(kept: seq<Item>, item: Item, cap: nat, noNull: bool, desc: bool): (d: seq<Item>)
    requires |kept| <= cap && 0 < cap
  {
    if |kept| < cap then []
    else if ItemBefore(noNull, item, kept[cap - 1], desc) then [kept[cap - 1]]
    else [item]
  }

  function Dropped(offers: seq<Offer>, cap: nat, desc: bool): (d: seq<Item>)
    requires 0 < cap
  {
    if offers == [] then []
    else
      var n := |offers| - 1;
      Dropped(offers[..n], cap, desc)
        + DroppedAt(KeptRows(offers[..n], cap, desc), MakeItem(offers[n].row, n % SEQ_LIMIT), cap, offers[n].noNull, desc)
  }

  lemma StepBalance(kept: seq<Item>, item: Item, cap: nat, noNull: bool, desc: bool)
    requires |kept| <= cap && 0 < cap
    ensures var r := KeepRow(kept, item, cap, noNull, desc);
      && multiset(r) + multiset(DroppedAt(kept, item, cap, noNull, desc)) == multiset(kept) + multiset{item}
      && |r| == if |kept| < cap then |kept| + 1 else cap
  {
    var p := Ahead(noNull, item, desc);
    if |kept| < cap {
      InsertedMultiset(kept, TopKHeap.Slot(kept, p, 0, |kept|), item);
    } else if p(kept[cap - 1]) {
      EvictedBySlot(kept, item, cap, p);
      assert kept[cap - 1] in multiset(kept);
    }
  }

  lemma DroppedStep(before: seq<Offer>, o: Offer, cap: nat, desc: bool)
    requires 0 < cap
    ensures var kept, item := KeptRows(before, cap, desc), MakeItem(o.row, |before| % SEQ_LIMIT);
      && KeptRows(before + [o], cap, desc) == KeepRow(kept, item, cap, o.noNull, desc)
      && Dropped(before + [o], cap, desc) == Dropped(before, cap, desc) + DroppedAt(kept, item, cap, o.noNull, desc)
      && Stamped(OfferedRows(before + [o])) == Stamped(OfferedRows(before)) + [item]
  {
    hide KeepRow, DroppedAt;
    StampedStep(OfferedRows(before), o.row);
    assert (before + [o])[..|before|] == before;
    assert OfferedRows(before + [o]) == OfferedRows(before) + [o.row];
  }

  // Every row offered is either kept or dropped, and the array fills up before anything is dropped.
  lemma {:induction false} KeptOrDropped(offers: seq<Offer>, cap: nat, desc: bool)
    requires 0 < cap
    ensures multiset(KeptRows(offers, cap, desc)) + multiset(Dropped(offers, cap, desc)) == multiset(Stamped(OfferedRows(offers)))
    ensures |KeptRows(offers, cap, desc)| == if |offers| < cap then |offers| else cap
    ensures |offers| <= cap ==> Dropped(offers, cap, desc) == []
  {
    hide KeptRows, Dropped, KeepRow, DroppedAt, Stamped, MakeItem, OfferedRows;
    if offers == [] {
      NothingOffered(cap, desc);
    } else {
      var n := |offers| - 1;
      var before, o := offers[..n], offers[n];
      assert offers == before + [o];
      KeptOrDropped(before, cap, desc);
      DroppedStep(before, o, cap, desc);
      var kept, item := KeptRows(before, cap, desc), MakeItem(o.row, |before| % SEQ_LIMIT);
      StepBalance(kept, item, cap, o.noNull, desc);
      Rebalance(kept, KeepRow(kept, item, cap, o.noNull, desc), Dropped(before, cap, desc),
                DroppedAt(kept, item, cap, o.noNull, desc), Stamped(OfferedRows(before)), item);
      if |offers| <= cap { NothingDroppedAt(kept, item, cap, o.noNull, desc); }
    }
  }

  lemma NothingOffered(cap: nat, desc: bool)
    requires 0 < cap
    ensures KeptRows([], cap, desc) == [] && Dropped([], cap, desc) == [] && Stamped(OfferedRows([])) == []
  {
  }

  lemma Rebalance(kept: seq<Item>, kept': seq<Item>, dropped: seq<Item>, more: seq<Item>, s: seq<Item>, x: Item)
    requires multiset(kept) + multiset(dropped) == multiset(s)
    requires multiset(kept') + multiset(more) == multiset(kept) + multiset{x}
    ensures multiset(kept') + multiset(dropped + more) == multiset(s + [x])
  {
    calc {
      multiset(kept') + multiset(dropped + more);
      (multiset(kept') + multiset(more)) + multiset(dropped);
      (multiset(kept) + multiset{x}) + multiset(dropped);
      (multiset(kept) + multiset(dropped)) + multiset{x};
      multiset(s + [x]);
    }
  }

  lemma NothingDroppedAt(kept: seq<Item>, item: Item, cap: nat, noNull: bool, desc: bool)
    requires |kept| < cap
    ensures DroppedAt(kept, item, cap, noNull, desc) == []
  {
  }

  // ----- who belongs to the first n -----

  ghost predicate Distinct<T(!new)>(s: seq<T>) {
    forall i, j :: 0 <= i < j < |s| ==> s[i] != s[j]
  }

  lemma {:induction false} CountIs<T(!new)>(s: seq<T>, x: T, k: nat, lt: (T, T) -> bool)
    requires k <= |s|
    requires forall i :: 0 <= i < k ==> lt(s[i], x)
    requires forall i :: k <= i < |s| ==> !lt(s[i], x)
    ensures CountBefore(s, x, lt) == k
  {
    if s != [] { CountIs(s[..|s| - 1], x, if k < |s| then k else k - 1, lt); }
  }

  lemma {:induction false} DistinctCount<T(!new)>(s: seq<T>, x: T)
    requires Distinct(s)
    ensures multiset(s)[x] <= 1
  {
    if s != [] {
      FrontLast(s);
      DistinctCount(s[..|s| - 1], x);
      if x == s[|s| - 1] { assert x !in s[..|s| - 1]; }
    }
  }

  lemma CountDistinct<T(!new)>(s: seq<T>)
    requires forall x :: multiset(s)[x] <= 1
    ensures Distinct(s)
  {
    forall i, j | 0 <= i < j < |s| ensures s[i] != s[j] {
      assert s == s[..j] + [s[j]] + s[j + 1..];
      assert multiset(s)[s[j]] == multiset(s[..j])[s[j]] + 1 + multiset(s[j + 1..])[s[j]];
      assert s[..j][i] in s[..j];
    }
  }

  lemma SortDistinct<T(!new)>(s: seq<T>, lt: (T, T) -> bool)
    requires Distinct(s)
    ensures Distinct(Sort(s, lt)) && |Sort(s, lt)| == |s|
    ensures forall x :: x in Sort(s, lt) <==> x in s
  {
    hide Distinct, Sort;
    SortMultiset(s, lt);
    MultisetMembers(Sort(s, lt), s);
    forall x ensures multiset(Sort(s, lt))[x] <= 1 { DistinctCount(s, x); }
    CountDistinct(Sort(s, lt));
  }

  // The i-th element in sort order has exactly i others before it.
  lemma SortedCount<T(!new)>(s: seq<T>, lt: (T, T) -> bool, i: nat)
    requires WeakOrder(lt) && Tieless(s, lt) && Distinct(s) && i < |s|
    ensures |Sort(s, lt)| == |s| && CountBefore(s, Sort(s, lt)[i], lt) == i
  {
    hide Sort, CountBefore;
    var r := Sort(s, lt);
    SortSorts(s, lt);
    SortDistinct(s, lt);
    CountSort(s, r[i], lt);
    forall j | 0 <= j < |r| ensures lt(r[j], r[i]) <==> j < i { StrictlySorted(s, r, lt, j, i); }
    CountIs(r, r[i], i, lt);
  }

  lemma StrictlySorted<T(!new)>(s: seq<T>, r: seq<T>, lt: (T, T) -> bool, j: nat, i: nat)
    requires WeakOrder(lt) && Tieless(s, lt) && Sorted(r, lt) && Distinct(r)
    requires j < |r| && i < |r| && r[j] in s && r[i] in s
    ensures lt(r[j], r[i]) <==> j < i
  {
  }

  // An element is among the first n exactly when fewer than n others come before it.
  lemma TopNIff<T(!new)>(s: seq<T>, n: nat, lt: (T, T) -> bool, x: T)
    requires WeakOrder(lt) && Tieless(s, lt) && Distinct(s)
    ensures x in TopN(s, n, lt) <==> x in s && CountBefore(s, x, lt) < n
    ensures |TopN(s, n, lt)| == if |s| < n then |s| else n
    ensures Distinct(TopN(s, n, lt))
  {
    hide Sort, CountBefore, Tieless, WeakOrder;
    var r := Sort(s, lt);
    SortDistinct(s, lt);
    if x in s {
      var i :| 0 <= i < |r| && r[i] == x;
      SortedCount(s, lt, i);
      if i < n { assert Take(r, n)[i] == x; }
      if x in Take(r, n) {
        var j :| 0 <= j < |Take(r, n)| && Take(r, n)[j] == x;
        assert r[j] == r[i];
      }
    }
  }

  // ----- exactly when the array is right -----

  // Every row dropped has at least cap rows before it.
  ghost predicate NothingLost(offers: seq<Offer>, cap: nat, desc: bool)
    requires 0 < cap
  {
    forall d :: d in Dropped(offers, cap, desc) ==> CountBefore(Stamped(OfferedRows(offers)), d, Before(desc)) >= cap
  }

  lemma StampedDistinct(rows: seq<Row>, desc: bool)
    requires |rows| <= SEQ_LIMIT
    ensures Distinct(Stamped(rows)) && Tieless(Stamped(rows), Before(desc)) && WeakOrder(Before(desc))
  {
    StampedIsNumbered(rows);
    DistinctIsTieless(Stamped(rows), desc);
    BeforeIsWeakOrder(desc);
  }

  lemma SameSize<T>(a: multiset<T>, b: multiset<T>)
    requires a <= b && |a| == |b|
    ensures a == b
  {
    assert b == a + (b - a);
    assert |b - a| == 0;
  }

  lemma SubsetOfDistinct<T(!new)>(a: seq<T>, b: seq<T>)
    requires Distinct(a) && |a| == |b| && forall x :: x in a ==> x in b
    ensures multiset(a) == multiset(b)
  {
    forall x ensures multiset(a)[x] <= multiset(b)[x] {
      DistinctCount(a, x);
      if multiset(a)[x] > 0 {
        assert x in a;
        assert x in multiset(b);
      }
    }
    SameSize(multiset(a), multiset(b));
  }

  // The array ends with exactly the first cap rows if and only if no row that
  // belongs to them was dropped, whatever mixture of comparators was used.
  lemma KeptExact(offers: seq<Offer>, cap: nat, desc: bool)
    requires 0 < cap && |offers| <= SEQ_LIMIT
    ensures multiset(KeptRows(offers, cap, desc)) == multiset(TopN(Stamped(OfferedRows(offers)), cap, Before(desc)))
      <==> NothingLost(offers, cap, desc)
  {
    hide KeptRows, Dropped, Stamped, TopN, Distinct, Tieless, Before;
    var s, lt := Stamped(OfferedRows(offers)), Before(desc);
    var kept, dropped, top := KeptRows(offers, cap, desc), Dropped(offers, cap, desc), TopN(s, cap, lt);
    StampedDistinct(OfferedRows(offers), desc);
    KeptOrDropped(offers, cap, desc);
    forall x ensures x in top <==> x in s && CountBefore(s, x, lt) < cap { TopNIff(s, cap, lt, x); }
    TopNIff(s, cap, lt, MakeItem(Row(Null, 0, 0, 0), 0));
    forall x ensures x in s <==> x in kept || x in dropped { InEither(s, kept, dropped, x); }
    forall x | x in dropped ensures x !in kept {
      DistinctCount(s, x);
      OnlyOnce(s, kept, dropped, x);
    }
    if multiset(kept) == multiset(top) {
      MultisetMembers(kept, top);
    }
    if NothingLost(offers, cap, desc) {
      SubsetOfDistinct(top, kept);
    }
  }

  lemma InEither(s: seq<Item>, kept: seq<Item>, dropped: seq<Item>, x: Item)
    requires multiset(kept) + multiset(dropped) == multiset(s)
    ensures x in s <==> x in kept || x in dropped
  {
    assert x in s <==> x in multiset(s);
    assert x in kept <==> x in multiset(kept);
    assert x in dropped <==> x in multiset(dropped);
  }

  lemma OnlyOnce(s: seq<Item>, kept: seq<Item>, dropped: seq<Item>, x: Item)
    requires multiset(kept) + multiset(dropped) == multiset(s) && multiset(s)[x] <= 1 && x in dropped
    ensures x !in kept
  {
    assert x in multiset(dropped);
    assert x in kept <==> x in multiset(kept);
  }

  // Nothing is lost as long as everything fits, or the fast-path rows are on the right side of zero.
  lemma FewRowsLoseNothing(offers: seq<Offer>, cap: nat, desc: bool)
    requires 0 < cap && |offers| <= cap
    ensures NothingLost(offers, cap, desc)
  {
    KeptOrDropped(offers, cap, desc);
  }

  lemma SafeLosesNothing(offers: seq<Offer>, cap: nat, desc: bool)
    requires 0 < cap && |offers| <= SEQ_LIMIT && FastPathSafe(offers, desc)
    ensures NothingLost(offers, cap, desc)
  {
    hide KeptRows, NothingLost, TopN;
    KeptRowsAreTopN(offers, cap, desc);
    KeptExact(offers, cap, desc);
  }
}
