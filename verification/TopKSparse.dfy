// Streams of rows that mix slow and fast pages at will: two counts over the
// keys that make the sorted array right whatever the pages are.
module TopKSparse {
  import opened Sorting
  import opened SortOrder
  import opened TopKHeap
  import opened TopKOffers

  // The rows on which the two comparators can differ lie on one side of zero:
  // ascending, nulls and negative keys; descending, everything but positive keys.
  predicate InFront(c: Cell, desc: bool) {
    if desc then c.Val? && c.v > 0 else c.Null? || c.v < 0
  }

  predicate Front(x: Item, desc: bool) {
    InFront(RowOf(x).cell, desc)
  }

  function FrontCount(rows: seq<Row>, desc: bool): (n: nat)
    ensures n <= |rows|
  {
    if rows == [] then 0 else FrontCount(rows[..|rows| - 1], desc) + (if InFront(rows[|rows| - 1].cell, desc) then 1 else 0)
  }

  // Descending the positive keys, ascending the nulls and the negative keys.
  ghost function FrontAt(rows: seq<Row>, desc: bool): set<int> {
    set i | 0 <= i < |rows| && if desc then rows[i].cell.Val? && rows[i].cell.v > 0 else rows[i].cell.Null? || rows[i].cell.v < 0
  }

  lemma FrontAtStep(rows: seq<Row>, desc: bool)
    requires rows != []
    ensures FrontAt(rows, desc)
      == if InFront(rows[|rows| - 1].cell, desc) then FrontAt(rows[..|rows| - 1], desc) + {|rows| - 1} else FrontAt(rows[..|rows| - 1], desc)
  {
    var n := |rows| - 1;
    forall i ensures i in FrontAt(rows, desc) <==> i in FrontAt(rows[..n], desc) || (i == n && InFront(rows[n].cell, desc)) {
      if 0 <= i < n { assert rows[..n][i] == rows[i]; }
    }
  }

  lemma {:induction false} FrontCountIs(rows: seq<Row>, desc: bool)
    ensures FrontCount(rows, desc) == |FrontAt(rows, desc)|
  {
    hide InFront;
    if rows != [] {
      FrontCountIs(rows[..|rows| - 1], desc);
      FrontAtStep(rows, desc);
      assert |rows| - 1 !in FrontAt(rows[..|rows| - 1], desc);
    }
  }

  predicate FastAreVal(offers: seq<Offer>) {
    forall i :: 0 <= i < |offers| && offers[i].noNull ==> offers[i].row.cell.Val?
  }

  lemma SlotUnfolds(s: seq<Item>, p: Item -> bool, lo: nat, hi: nat)
    requires lo <= hi <= |s|
    ensures Slot(s, p, lo, hi) ==
      if lo == hi then lo
      else if p(s[(lo + hi) / 2]) then Slot(s, p, lo, (lo + hi) / 2) else Slot(s, p, (lo + hi) / 2 + 1, hi)
  {
  }

  // Whatever p is, the search ends where p turns from false to true.
  lemma {:induction false} SlotTurns(s: seq<Item>, p: Item -> bool, lo: nat, hi: nat)
    requires lo <= hi <= |s|
    requires (lo > 0 ==> !p(s[lo - 1])) && (hi < |s| ==> p(s[hi]))
    ensures var k := Slot(s, p, lo, hi); (k > 0 ==> !p(s[k - 1])) && (k < |s| ==> p(s[k]))
    decreases hi - lo
  {
    hide Slot;
    SlotUnfolds(s, p, lo, hi);
    if lo < hi {
      var mid := (lo + hi) / 2;
      if p(s[mid]) { SlotTurns(s, p, lo, mid); } else { SlotTurns(s, p, mid + 1, hi); }
    }
  }

  // A later item against an earlier one, by either comparator.
  ghost predicate Arrives(x: Item, noNull: bool, y: Item) {
    && (x.isNull ==> x.key == 0 && !noNull) && (y.isNull ==> y.key == 0) && y.seqNo < x.seqNo
  }

  lemma FrontFirst(y: Item, d: Item, desc: bool)
    requires Front(y, desc) && !Front(d, desc) && (y.isNull ==> y.key == 0) && (d.isNull ==> d.key == 0)
    ensures Before(desc)(y, d)
  {
  }

  lemma AcrossFront(x: Item, noNull: bool, y: Item, desc: bool)
    requires Arrives(x, noNull, y) && (Front(x, desc) <==> !Front(y, desc))
    ensures ItemBefore(noNull, x, y, desc) <==> Front(x, desc)
  {
  }

  // On the side where no null is, the comparators agree.
  lemma WithinValues(x: Item, noNull: bool, y: Item, desc: bool)
    requires Arrives(x, noNull, y) && !x.isNull && !y.isNull
    ensures ItemBefore(noNull, x, y, desc) <==> Before(desc)(x, y)
    ensures !Before(desc)(x, y) ==> Before(desc)(y, x)
  {
  }

  // ----- the shape of the array -----

  ghost predicate Split(s: seq<Item>, f: nat, desc: bool) {
    f <= |s| && (forall i :: 0 <= i < f ==> Front(s[i], desc)) && (forall i :: f <= i < |s| ==> !Front(s[i], desc))
  }

  // The front rows come first; the side that holds no nulls is in order.
  ghost predicate Shape(kept: seq<Item>, f: nat, desc: bool) {
    && Split(kept, f, desc)
    && (if desc then Rising(kept, 0, f, desc) else Rising(kept, f, |kept|, desc))
  }

  ghost predicate Rising(s: seq<Item>, lo: nat, hi: nat, desc: bool) {
    lo <= hi <= |s| && forall i, j :: lo <= i < j < hi ==> Before(desc)(s[i], s[j])
  }

  ghost predicate ArrivesAt(x: Item, noNull: bool, kept: seq<Item>) {
    forall i :: 0 <= i < |kept| ==> Arrives(x, noNull, kept[i])
  }

  // Where the row goes: among the front rows or behind them, and in order where order is kept.
  lemma SlotInShape(kept: seq<Item>, x: Item, noNull: bool, desc: bool, f: nat)
    requires Shape(kept, f, desc) && ArrivesAt(x, noNull, kept)
    ensures var k := Slot(kept, Ahead(noNull, x, desc), 0, |kept|);
      && (if Front(x, desc) then k <= f else f <= k)
      && (Front(x, desc) == desc ==>
            (forall i :: (if desc then 0 else f) <= i < k ==> Before(desc)(kept[i], x))
            && (forall i :: k <= i < (if desc then f else |kept|) ==> Before(desc)(x, kept[i]))
            && (forall i :: k <= i < |kept| ==> ItemBefore(noNull, x, kept[i], desc)))
  {
    hide Slot;
    var p := Ahead(noNull, x, desc);
    forall i | 0 <= i < |kept| && (Front(x, desc) <==> i >= f) ensures p(kept[i]) == Front(x, desc) {
      assert Arrives(x, noNull, kept[i]);
      AcrossFront(x, noNull, kept[i], desc);
    }
    SlotTurns(kept, p, 0, |kept|);
    if Front(x, desc) == desc {
      SlotInOrder(kept, x, noNull, desc, f);
    }
  }

  lemma SlotInOrder(kept: seq<Item>, x: Item, noNull: bool, desc: bool, f: nat)
    requires Shape(kept, f, desc) && ArrivesAt(x, noNull, kept) && Front(x, desc) == desc
    ensures var k := Slot(kept, Ahead(noNull, x, desc), 0, |kept|);
      && (forall i :: (if desc then 0 else f) <= i < k && i < (if desc then f else |kept|) ==> Before(desc)(kept[i], x))
      && (forall i :: k <= i < (if desc then f else |kept|) && (if desc then 0 else f) <= i ==> Before(desc)(x, kept[i]))
      && (forall i :: k <= i < |kept| ==> ItemBefore(noNull, x, kept[i], desc))
  {
    hide Slot;
    var p := Ahead(noNull, x, desc);
    var lo, hi := if desc then 0 else f, if desc then f else |kept|;
    forall i | 0 <= i < |kept| ensures p(kept[i]) == if lo <= i < hi then Before(desc)(x, kept[i]) else desc {
      assert Arrives(x, noNull, kept[i]);
      if lo <= i < hi { WithinValues(x, noNull, kept[i], desc); } else { AcrossFront(x, noNull, kept[i], desc); }
    }
    BeforeIsWeakOrder(desc);
    forall i, j | 0 <= i < j < |kept| && p(kept[i]) ensures p(kept[j]) {
      if lo <= i && j < hi { assert Before(desc)(kept[i], kept[j]); }
    }
    SlotSplits(kept, p, 0, |kept|);
    forall i | lo <= i < hi && !Before(desc)(x, kept[i]) ensures Before(desc)(kept[i], x) {
      assert Arrives(x, noNull, kept[i]);
      WithinValues(x, noNull, kept[i], desc);
    }
  }

  // ----- one step -----

  function Bump(f: nat, x: Item, desc: bool): nat {
    if Front(x, desc) then f + 1 else f
  }

  // Inserting a row into a sorted stretch, or away from it.
  lemma InsertedRising(kept: seq<Item>, x: Item, k: nat, lo: nat, hi: nat, desc: bool)
    requires Rising(kept, lo, hi, desc) && lo <= k <= hi
    requires (forall i :: lo <= i < k ==> Before(desc)(kept[i], x)) && (forall i :: k <= i < hi ==> Before(desc)(x, kept[i]))
    ensures Rising(kept[..k] + [x] + kept[k..], lo, hi + 1, desc)
  {
    hide Before;
    var r := kept[..k] + [x] + kept[k..];
    forall i, j | lo <= i < j < hi + 1 ensures Before(desc)(r[i], r[j]) {
      if i != k && j != k { assert Before(desc)(kept[if i < k then i else i - 1], kept[if j < k then j else j - 1]); }
    }
  }

  lemma MovedRising(kept: seq<Item>, x: Item, k: nat, lo: nat, hi: nat, desc: bool)
    requires Rising(kept, lo, hi, desc) && k <= |kept| && (k <= lo || hi <= k)
    ensures hi <= k ==> Rising(kept[..k] + [x] + kept[k..], lo, hi, desc)
    ensures k <= lo ==> Rising(kept[..k] + [x] + kept[k..], lo + 1, hi + 1, desc)
  {
    hide Before;
    var r := kept[..k] + [x] + kept[k..];
    if k <= lo {
      forall i, j | lo + 1 <= i < j < hi + 1 ensures Before(desc)(r[i], r[j]) {
        assert Before(desc)(kept[i - 1], kept[j - 1]);
      }
    }
  }

  lemma InsertedSplit(kept: seq<Item>, x: Item, k: nat, f: nat, desc: bool)
    requires Split(kept, f, desc) && k <= |kept| && (if Front(x, desc) then k <= f else f <= k)
    ensures Split(kept[..k] + [x] + kept[k..], Bump(f, x, desc), desc)
  {
    hide Front;
    var r := kept[..k] + [x] + kept[k..];
    assert forall i :: 0 <= i < |r| ==> r[i] == if i < k then kept[i] else if i == k then x else kept[i - 1];
  }

  lemma InsertedShape(kept: seq<Item>, x: Item, noNull: bool, desc: bool, f: nat, k: nat)
    requires Shape(kept, f, desc) && ArrivesAt(x, noNull, kept) && k == Slot(kept, Ahead(noNull, x, desc), 0, |kept|)
    ensures Shape(kept[..k] + [x] + kept[k..], Bump(f, x, desc), desc)
  {
    hide Slot, Before, Front, Rising, ItemBefore;
    SlotInShape(kept, x, noNull, desc, f);
    InsertedSplit(kept, x, k, f, desc);
    if Front(x, desc) == desc {
      InsertedRising(kept, x, k, if desc then 0 else f, if desc then f else |kept|, desc);
    } else {
      MovedRising(kept, x, k, if desc then 0 else f, if desc then f else |kept|, desc);
    }
  }

  lemma PrefixShape(s: seq<Item>, f: nat, n: nat, desc: bool)
    requires Shape(s, f, desc) && n <= |s|
    ensures Shape(s[..n], if f < n then f else n, desc)
  {
    hide Before, Front;
  }

  // A row in order behind the front has every row of the array before it.
  lemma LastOfShape(s: seq<Item>, f: nat, desc: bool, m: nat)
    requires Shape(s, f, desc) && m + 1 == |s| && (if desc then f == |s| else f <= m)
    requires forall i :: 0 <= i < |s| ==> s[i].isNull ==> s[i].key == 0
    ensures forall y :: y in s[..m] ==> Before(desc)(y, s[m])
  {
    hide Before, Front;
    forall i | 0 <= i < m ensures Before(desc)(s[i], s[m]) {
      if !desc && i < f { FrontFirst(s[i], s[m], desc); }
    }
  }

  // What may be dropped: descending, a row behind the front; otherwise a row behind all that is kept.
  ghost predicate RightlyDropped(d: Item, kept: seq<Item>, cap: nat, desc: bool) {
    (desc && !Front(d, desc)) || (|kept| == cap && forall y :: y in kept ==> Before(desc)(y, d))
  }

  lemma KeepsShape(kept: seq<Item>, x: Item, cap: nat, noNull: bool, desc: bool, f: nat)
    requires 0 < cap && |kept| <= cap && Shape(kept, f, desc) && ArrivesAt(x, noNull, kept)
    requires (x.isNull ==> x.key == 0) && (!desc && Front(x, desc) ==> f < cap)
    ensures var r := KeepRow(kept, x, cap, noNull, desc);
      && Shape(r, if Bump(f, x, desc) < cap then Bump(f, x, desc) else cap, desc)
      && forall d :: d in DroppedAt(kept, x, cap, noNull, desc) ==> RightlyDropped(d, r, cap, desc)
  {
    hide Slot, Before, Front, ItemBefore;
    var p := Ahead(noNull, x, desc);
    var k := Slot(kept, p, 0, |kept|);
    var all := kept[..k] + [x] + kept[k..];
    InsertedShape(kept, x, noNull, desc, f, k);
    SlotInShape(kept, x, noNull, desc, f);
    if |kept| < cap {
      assert Take(all, cap) == all;
    } else if p(kept[cap - 1]) {
      assert all[cap] == kept[cap - 1] && Take(all, cap) == all[..cap];
      CutRightly(all, cap, desc, f, x);
    } else if Front(x, desc) == desc {
      assert k == cap;
      assert all[cap] == x && all[..cap] == kept;
      CutRightly(all, cap, desc, f, x);
    } else if !desc {
      assert Arrives(x, noNull, kept[cap - 1]);
      AcrossFront(x, noNull, kept[cap - 1], desc);
    }
  }

  lemma CutRightly(all: seq<Item>, cap: nat, desc: bool, f: nat, x: Item)
    requires |all| == cap + 1 && Shape(all, Bump(f, x, desc), desc) && (desc || Bump(f, x, desc) <= cap)
    requires forall i :: 0 <= i < |all| ==> all[i].isNull ==> all[i].key == 0
    ensures Shape(all[..cap], if Bump(f, x, desc) < cap then Bump(f, x, desc) else cap, desc)
    ensures RightlyDropped(all[cap], all[..cap], cap, desc)
  {
    hide Before, Front;
    PrefixShape(all, Bump(f, x, desc), cap, desc);
    if !desc || Front(all[cap], desc) { LastOfShape(all, Bump(f, x, desc), desc, cap); }
  }

  // ----- whole streams -----

  lemma {:induction false} CountSubset(s: seq<Item>, t: seq<Item>, d: Item, lt: (Item, Item) -> bool)
    requires Distinct(t) && (forall y :: y in t ==> y in s && lt(y, d))
    ensures CountBefore(s, d, lt) >= |t|
  {
    if t != [] {
      assert t[0] in t;
      FrontLast(s);
      var last := s[|s| - 1];
      if last in t {
        var j :| 0 <= j < |t| && t[j] == last;
        var rest := t[..j] + t[j + 1..];
        assert forall i :: 0 <= i < |rest| ==> rest[i] == t[if i < j then i else i + 1];
        forall y | y in rest ensures y in s[..|s| - 1] && lt(y, d) {
          var i :| 0 <= i < |rest| && rest[i] == y;
          assert y in t && y != t[j];
        }
        CountSubset(s[..|s| - 1], rest, d, lt);
      } else {
        CountSubset(s[..|s| - 1], t, d, lt);
      }
    }
  }

  // Every front row comes before a row that is not one.
  lemma {:induction false} FrontsBefore(rows: seq<Row>, d: Item, desc: bool)
    requires |rows| <= SEQ_LIMIT && !Front(d, desc) && (d.isNull ==> d.key == 0)
    ensures CountBefore(Stamped(rows), d, Before(desc)) >= FrontCount(rows, desc)
  {
    if rows != [] {
      var n := |rows| - 1;
      FrontsBefore(rows[..n], d, desc);
      assert rows == rows[..n] + [rows[n]];
      StampedStep(rows[..n], rows[n]);
      var x := MakeItem(rows[n], n % SEQ_LIMIT);
      assert RowOf(x) == rows[n];
      assert (Stamped(rows[..n]) + [x])[..n] == Stamped(rows[..n]);
      if Front(x, desc) { FrontFirst(x, d, desc); }
    }
  }

  // The rows are few enough ascending, or many enough descending.
  predicate Sparse(rows: seq<Row>, cap: nat, desc: bool) {
    if desc then FrontCount(rows, desc) >= cap else FrontCount(rows, desc) <= cap
  }

  ghost predicate DroppedRightly(offers: seq<Offer>, cap: nat, desc: bool)
    requires 0 < cap
  {
    forall d :: d in Dropped(offers, cap, desc) ==>
      (d.isNull ==> d.key == 0)
      && ((desc && !Front(d, desc)) || CountBefore(Stamped(OfferedRows(offers)), d, Before(desc)) >= cap)
  }

  lemma StampedMember(offers: seq<Offer>, y: Item)
    requires |offers| <= SEQ_LIMIT && y in Stamped(OfferedRows(offers))
    ensures y.seqNo < |offers| && (y.isNull ==> y.key == 0)
  {
    var i :| 0 <= i < |offers| && Stamped(OfferedRows(offers))[i] == y;
    assert i % SEQ_LIMIT == i;
  }

  // The items kept are items offered, each once.
  lemma KeptAreOffered(offers: seq<Offer>, cap: nat, desc: bool)
    requires 0 < cap && |offers| <= SEQ_LIMIT
    ensures Distinct(KeptRows(offers, cap, desc))
    ensures forall y :: y in KeptRows(offers, cap, desc) || y in Dropped(offers, cap, desc) ==> y in Stamped(OfferedRows(offers))
  {
    hide KeptRows, Dropped, Stamped, Distinct;
    var kept, s := KeptRows(offers, cap, desc), Stamped(OfferedRows(offers));
    StampedDistinct(OfferedRows(offers), desc);
    KeptOrDropped(offers, cap, desc);
    forall x ensures x in s <==> x in kept || x in Dropped(offers, cap, desc) { InEither(s, kept, Dropped(offers, cap, desc), x); }
    forall x ensures multiset(kept)[x] <= 1 {
      DistinctCount(s, x);
      assert multiset(s)[x] == multiset(kept)[x] + multiset(Dropped(offers, cap, desc))[x];
    }
    CountDistinct(kept);
  }

  // What holds of the array after a stream.
  ghost predicate Holds(offers: seq<Offer>, cap: nat, desc: bool)
    requires 0 < cap
  {
    var f := FrontCount(OfferedRows(offers), desc);
    Shape(KeptRows(offers, cap, desc), if f < cap then f else cap, desc) && DroppedRightly(offers, cap, desc)
  }

  lemma HoldsStep(before: seq<Offer>, o: Offer, cap: nat, desc: bool)
    requires 0 < cap && |before| < SEQ_LIMIT && FastAreVal(before + [o])
    requires Holds(before, cap, desc) && (desc || FrontCount(OfferedRows(before + [o]), desc) <= cap)
    ensures Holds(before + [o], cap, desc)
  {
    hide KeptRows, Dropped, Stamped, Shape, KeepRow, DroppedAt, Distinct, CountBefore, Before, RightlyDropped;
    var kept, x := KeptRows(before, cap, desc), MakeItem(o.row, |before| % SEQ_LIMIT);
    var after := before + [o];
    DroppedStep(before, o, cap, desc);
    FrontStep(before, o, desc);
    StepArrives(before, o, cap, desc);
    var f := FrontCount(OfferedRows(before), desc);
    KeepsShape(kept, x, cap, o.noNull, desc, if f < cap then f else cap);
    assert FrontCount(OfferedRows(after), desc) == Bump(f, x, desc);
    forall d | d in Dropped(after, cap, desc)
      ensures (d.isNull ==> d.key == 0)
        && ((desc && !Front(d, desc)) || CountBefore(Stamped(OfferedRows(after)), d, Before(desc)) >= cap)
    {
      KeptAreOffered(after, cap, desc);
      StampedMember(after, d);
      if d in Dropped(before, cap, desc) {
        CountAppended(before, x, d, desc);
      } else {
        FullBefore(after, cap, d, desc);
      }
    }
  }

  lemma FrontStep(before: seq<Offer>, o: Offer, desc: bool)
    ensures FrontCount(OfferedRows(before + [o]), desc)
      == FrontCount(OfferedRows(before), desc) + (if InFront(o.row.cell, desc) then 1 else 0)
    ensures Front(MakeItem(o.row, |before| % SEQ_LIMIT), desc) <==> InFront(o.row.cell, desc)
  {
    assert OfferedRows(before + [o])[..|before|] == OfferedRows(before);
    assert RowOf(MakeItem(o.row, |before| % SEQ_LIMIT)) == o.row;
  }

  lemma StepArrives(before: seq<Offer>, o: Offer, cap: nat, desc: bool)
    requires 0 < cap && |before| < SEQ_LIMIT && FastAreVal(before + [o])
    ensures ArrivesAt(MakeItem(o.row, |before| % SEQ_LIMIT), o.noNull, KeptRows(before, cap, desc))
  {
    hide KeptRows, Dropped, Stamped, Distinct;
    assert (before + [o])[|before|] == o;
    assert |before| % SEQ_LIMIT == |before|;
    KeptAreOffered(before, cap, desc);
    var kept := KeptRows(before, cap, desc);
    forall i | 0 <= i < |kept| ensures kept[i].seqNo < |before| && (kept[i].isNull ==> kept[i].key == 0) {
      assert kept[i] in kept;
      StampedMember(before, kept[i]);
    }
  }

  lemma CountAppended(before: seq<Offer>, x: Item, d: Item, desc: bool)
    ensures CountBefore(Stamped(OfferedRows(before)) + [x], d, Before(desc)) >= CountBefore(Stamped(OfferedRows(before)), d, Before(desc))
  {
    var s := Stamped(OfferedRows(before));
    assert (s + [x])[..|s|] == s;
  }

  lemma FullBefore(offers: seq<Offer>, cap: nat, d: Item, desc: bool)
    requires 0 < cap && |offers| <= SEQ_LIMIT && RightlyDropped(d, KeptRows(offers, cap, desc), cap, desc)
    ensures (desc && !Front(d, desc)) || CountBefore(Stamped(OfferedRows(offers)), d, Before(desc)) >= cap
  {
    hide KeptRows, Dropped, Stamped, Distinct, CountBefore;
    KeptAreOffered(offers, cap, desc);
    if !(desc && !Front(d, desc)) {
      CountSubset(Stamped(OfferedRows(offers)), KeptRows(offers, cap, desc), d, Before(desc));
    }
  }

  lemma {:induction false} StreamHolds(offers: seq<Offer>, cap: nat, desc: bool)
    requires 0 < cap && |offers| <= SEQ_LIMIT && FastAreVal(offers)
    requires desc || FrontCount(OfferedRows(offers), desc) <= cap
    ensures Holds(offers, cap, desc)
  {
    if offers == [] {
      NothingOffered(cap, desc);
    } else {
      hide Holds;
      var before, o := offers[..|offers| - 1], offers[|offers| - 1];
      assert offers == before + [o];
      FrontStep(before, o, desc);
      StreamHolds(before, cap, desc);
      HoldsStep(before, o, cap, desc);
    }
  }

  // Ascending, at most cap nulls and negative keys together, or descending, at
  // least cap positive keys: then the array is right whatever pages deliver them.
  lemma SparseLosesNothing(offers: seq<Offer>, cap: nat, desc: bool)
    requires 0 < cap && |offers| <= SEQ_LIMIT && FastAreVal(offers) && Sparse(OfferedRows(offers), cap, desc)
    ensures NothingLost(offers, cap, desc)
  {
    hide Dropped, Stamped, CountBefore, Shape, Front;
    StreamHolds(offers, cap, desc);
    forall d | d in Dropped(offers, cap, desc) ensures CountBefore(Stamped(OfferedRows(offers)), d, Before(desc)) >= cap {
      if desc && !Front(d, desc) { FrontsBefore(OfferedRows(offers), d, desc); }
    }
  }

  // One more and it can fail: two slow rows fill the array with a null and -5,
  // then -7 and -6 arrive on a fast page, and the null is gone.
  lemma OneTooMany()
    ensures var rows := [Row(Null, 0, 0, 0), Row(Val(-5), 0, 0, 1), Row(Val(-7), 1, 0, 0), Row(Val(-6), 1, 0, 1)];
      var offers := [Offer(rows[0], false), Offer(rows[1], false), Offer(rows[2], true), Offer(rows[3], true)];
      && FrontCount(rows, false) == 4
      && KeptRows(offers, 2, false) == [MakeItem(rows[2], 2), MakeItem(rows[3], 3)]
      && !NothingLost(offers, 2, false)
  {
    hide Dropped, NothingLost, CountBefore, Distinct, Stamped, Insert, TopN;
    var n, v, w, u := Row(Null, 0, 0, 0), Row(Val(-5), 0, 0, 1), Row(Val(-7), 1, 0, 0), Row(Val(-6), 1, 0, 1);
    var a, b := [Offer(n, false), Offer(v, false)], Offer(w, true);
    KeptPair(n, v);
    OfferStep(a, w, true);
    OfferStep(a + [b], u, true);
    assert a + [b] + [Offer(u, true)] == [Offer(n, false), Offer(v, false), b, Offer(u, true)];
    KeptNegative(MakeItem(n, 0), MakeItem(v, 1), MakeItem(w, 2), MakeItem(u, 3));
    FourFronts(n, v, w, u);
    NullIsLost(a + [b] + [Offer(u, true)], MakeItem(n, 0), [MakeItem(w, 2), MakeItem(u, 3)]);
  }

  lemma FourFronts(n: Row, v: Row, w: Row, u: Row)
    requires InFront(n.cell, false) && InFront(v.cell, false) && InFront(w.cell, false) && InFront(u.cell, false)
    ensures FrontCount([n, v, w, u], false) == 4
  {
    assert [n, v, w, u][..3] == [n, v, w] && [n, v, w][..2] == [n, v] && [n, v][..1] == [n] && [n][..0] == [];
    assert FrontCount([n, v], false) == 2;
  }

  lemma KeptPair(n: Row, v: Row)
    requires n.cell == Null && v.cell == Val(-5)
    ensures KeptRows([Offer(n, false), Offer(v, false)], 2, false) == [MakeItem(n, 0), MakeItem(v, 1)]
  {
    var none: seq<Offer> := [];
    OfferStep(none, n, false);
    assert none + [Offer(n, false)] == [Offer(n, false)];
    assert KeptRows([Offer(n, false)], 2, false) == [MakeItem(n, 0)];
    OfferStep([Offer(n, false)], v, false);
    assert [Offer(n, false)] + [Offer(v, false)] == [Offer(n, false), Offer(v, false)];
  }

  lemma KeptNegative(n: Item, v: Item, w: Item, u: Item)
    requires n.isNull && n.key == 0 && v.key == -5 && w.key == -7 && u.key == -6 && n.seqNo < w.seqNo < u.seqNo
    ensures KeepRow([n, v], w, 2, true, false) == [w, n]
    ensures KeepRow([w, n], u, 2, true, false) == [w, u]
  {
    var p, q := Ahead(true, w, false), Ahead(true, u, false);
    SlotUnfolds([n, v], p, 0, 2);
    SlotUnfolds([n, v], p, 0, 1);
    SlotUnfolds([w, n], q, 0, 2);
    SlotUnfolds([w, n], q, 0, 1);
  }

  lemma {:induction false} NullIsLost(offers: seq<Offer>, n: Item, kept: seq<Item>)
    requires |offers| == 4 && offers[0].row.cell.Null? && n == MakeItem(offers[0].row, 0)
    requires KeptRows(offers, 2, false) == kept && n !in kept
    requires forall i :: 1 <= i < 4 ==> offers[i].row.cell.Val?
    ensures !NothingLost(offers, 2, false)
  {
    hide KeptRows, Dropped, NothingLost, Distinct, TopN, CountBefore;
    var s := Stamped(OfferedRows(offers));
    StampedDistinct(OfferedRows(offers), false);
    KeptExact(offers, 2, false);
    assert s[0] == n && n in s;
    forall i | 0 <= i < 4 ensures !Before(false)(s[i], n) {
    }
    CountIs(s, n, 0, Before(false));
    TopNIff(s, 2, Before(false), n);
    DifferentMembers(kept, TopN(s, 2, Before(false)), n);
  }

  lemma DifferentMembers(a: seq<Item>, b: seq<Item>, x: Item)
    requires x !in a && x in b
    ensures multiset(a) != multiset(b)
  {
    assert x in multiset(b) && x !in multiset(a);
  }
}
