// ORDER BY one integer key with LIMIT/OFFSET: the late top-K scan over pruned
// pages, and the sort operator's streaming top-K and full sort.
module TopKScan {
  import opened Options
  import opened Sorting
  import opened SortOrder
  import opened KeyScan
  import opened PagePruning
  import opened TopKHeap
  import opened TopKOffers
  import opened TopKRuns
  import opened TopKSparse

  const TOPK_INSERT_CAP_MAX := 256
  const MAX_INT32 := 0x7fff_ffff

  lemma HeapOfferStep(offers: seq<Offer>, row: Row, noNull: bool, cap: nat, desc: bool, h: seq<Item>, h': seq<Item>)
    requires 0 < cap && |offers| < SEQ_LIMIT && IsHeap(h, desc)
    requires multiset(h) == multiset(TopN(Stamped(OfferedRows(offers)), cap, Before(desc)))
    requires var x := MakeItem(row, |offers| % SEQ_LIMIT);
      && (|h| < cap ==> multiset(h') == multiset(h) + multiset{x})
      && (|h| == cap && Before(desc)(x, h[0]) ==> multiset(h') == multiset(h) - multiset{h[0]} + multiset{x})
      && (|h| == cap && !Before(desc)(x, h[0]) ==> h' == h)
    ensures multiset(h') == multiset(TopN(Stamped(OfferedRows(offers + [Offer(row, noNull)])), cap, Before(desc)))
  {
    var rows := OfferedRows(offers);
    OfferStep(offers, row, noNull);
    StampedStep(rows, row);
    StampedIsNumbered(rows);
    HeapStep(Stamped(rows), MakeItem(row, |offers| % SEQ_LIMIT), cap, h, h', desc);
  }

  // The bounded container both operators fill: a sorted array up to 256 rows, a heap above.
  class TopKBuffer {
    const capN: nat
    const desc: bool
    const useInsert: bool
    const data: array<Item>
    const heap: TopKRowHeap
    var n: nat
    var seqNo: nat
    ghost var offers: seq<Offer>

    ghost predicate ArrayHolds(offers: seq<Offer>)
      reads this, data
    {
      0 < capN && n <= data.Length && data[..n] == KeptRows(offers, capN, desc)
    }

    ghost predicate HeapHolds(offers: seq<Offer>)
      reads heap, heap.data
    {
      && heap.Valid()
      && (|offers| <= SEQ_LIMIT ==>
            multiset(heap.data[..heap.len]) == multiset(TopN(Stamped(OfferedRows(offers)), capN, Before(desc))))
    }

    ghost predicate Shape()
      reads this, heap
    {
      0 < capN == data.Length == heap.data.Length && data != heap.data && heap.desc == desc
    }

    ghost predicate Valid()
      reads this, data, heap, heap.data
    {
      && Shape()
      && useInsert == (capN <= TOPK_INSERT_CAP_MAX)
      && seqNo == |offers| % SEQ_LIMIT
      && (if useInsert then ArrayHolds(offers) else HeapHolds(offers))
    }

    constructor (capN: nat, desc: bool)
      requires 0 < capN
      ensures Valid() && offers == [] && this.capN == capN && this.desc == desc
      ensures fresh(data) && fresh(heap) && fresh(heap.data)
    {
      this.capN, this.desc, useInsert := capN, desc, capN <= TOPK_INSERT_CAP_MAX;
      data := new Item[capN](_ => Item(0, false, 0, 0, 0, 0));
      heap := new TopKRowHeap(capN, desc);
      n, seqNo, offers := 0, 0, [];
    }

    method PushArray(item: Item, row: Row, noNull: bool)
      requires Shape() && ArrayHolds(offers) && item == MakeItem(row, |offers| % SEQ_LIMIT)
      modifies this`n, data
      ensures ArrayHolds(offers + [Offer(row, noNull)])
    {
      OfferStep(offers, row, noNull);
      n := InsertBounded(data, n, item, noNull, desc);
    }

    method PushHeap(item: Item, row: Row, noNull: bool)
      requires Shape() && HeapHolds(offers) && item == MakeItem(row, |offers| % SEQ_LIMIT)
      modifies heap, heap.data
      ensures HeapHolds(offers + [Offer(row, noNull)]) && heap.data == old(heap.data)
    {
      ghost var h := heap.data[..heap.len];
      heap.Offer(item);
      if |offers| < SEQ_LIMIT {
        HeapOfferStep(offers, row, noNull, capN, desc, h, heap.data[..heap.len]);
      }
    }

    method Push(row: Row, noNull: bool)
      requires Valid()
      modifies this, data, heap, heap.data
      ensures Valid() && heap.data == old(heap.data)
      ensures offers == old(offers) + [Offer(row, noNull)]
    {
      hide KeptRows, TopN, Stamped, IsHeap, Before;
      var item := MakeItem(row, seqNo);
      if useInsert {
        PushArray(item, row, noNull);
      } else {
        PushHeap(item, row, noNull);
      }
      offers := offers + [Offer(row, noNull)];
      seqNo := (seqNo + 1) % SEQ_LIMIT;
    }

    // The rows kept, in no particular order for the heap.
    method Contents() returns (items: seq<Item>)
      requires Valid()
      ensures useInsert ==> items == KeptRows(offers, capN, desc)
      ensures |offers| <= SEQ_LIMIT ==>
        (multiset(items) == multiset(TopN(Numbered(OfferedRows(offers)), capN, Before(desc)))
          <==> (useInsert ==> NothingLost(offers, capN, desc)))
    {
      hide NothingLost;
      items := if useInsert then data[..n] else heap.data[..heap.len];
      if |offers| <= SEQ_LIMIT {
        StampedIsNumbered(OfferedRows(offers));
        if useInsert { KeptExact(offers, capN, desc); }
      }
    }
  }

  // slices.SortFunc on the comparator: some sorted arrangement of the items.
  method SortItems(items: seq<Item>, desc: bool) returns (sorted: seq<Item>)
    ensures Sorted(sorted, Before(desc)) && multiset(sorted) == multiset(items)
  {
    BeforeIsWeakOrder(desc);
    SortSorts(items, Before(desc));
    SortMultiset(items, Before(desc));
    sorted := Sort(items, Before(desc));
  }

  // Sorting the kept rows restores the first n rows of the full sort.
  lemma SortedContents(rows: seq<Row>, n: nat, desc: bool, items: seq<Item>, sorted: seq<Item>)
    requires |rows| <= SEQ_LIMIT
    requires multiset(items) == multiset(TopN(Numbered(rows), n, Before(desc)))
    requires Sorted(sorted, Before(desc)) && multiset(sorted) == multiset(items)
    ensures sorted == TopN(Numbered(rows), n, Before(desc))
  {
    var lt := Before(desc);
    var top := TopN(Numbered(rows), n, lt);
    BeforeIsWeakOrder(desc);
    SortSorts(Numbered(rows), lt);
    SortMultiset(Numbered(rows), lt);
    MultisetMembers(Sort(Numbered(rows), lt), Numbered(rows));
    TakeMembers(Sort(Numbered(rows), lt), n);
    StampedIsNumbered(rows);
    DistinctIsTieless(Numbered(rows), desc);
    MultisetMembers(sorted, top);
    SortedIsUnique(sorted, top, lt);
  }

  // ----- the late top-K scan -----

  // Pages whose rows go through the fast comparator; wide says the key is stored as int64.
  predicate FastPage(segs: seq<KeySegment>, wide: bool, si: nat, pi: nat)
    requires si < |segs| && pi < |segs[si].pages|
  {
    && wide && segs[si].dv.None?
    && (forall p :: 0 <= p < |segs[si].pages| ==> segs[si].pages[p].AllValid())
  }

  // What collect offers, page by page.
  function OffersOf(segs: seq<KeySegment>, wide: bool, rows: seq<Row>): (offers: seq<Offer>)
    ensures OfferedRows(offers) == rows
    ensures |offers| == |rows|
    ensures forall i :: 0 <= i < |rows| ==> offers[i] == OfferFor(segs, wide, rows[i])
  {
    seq(|rows|, i requires 0 <= i < |rows| => OfferFor(segs, wide, rows[i]))
  }

  function OfferFor(segs: seq<KeySegment>, wide: bool, r: Row): Offer {
    Offer(r, r.seg < |segs| && r.page < |segs[r.seg].pages| && FastPage(segs, wide, r.seg, r.page))
  }

  lemma OfferIs(segs: seq<KeySegment>, wide: bool, r: Row)
    requires r.seg < |segs| && r.page < |segs[r.seg].pages|
    ensures OfferFor(segs, wide, r) == Offer(r, FastPage(segs, wide, r.seg, r.page))
  {
  }

  lemma OffersStep(segs: seq<KeySegment>, wide: bool, rows: seq<Row>, r: Row)
    ensures OffersOf(segs, wide, rows + [r]) == OffersOf(segs, wide, rows) + [OfferFor(segs, wide, r)]
  {
  }

  lemma PageRowsStep(segs: seq<KeySegment>, before: seq<Row>, si: nat, pi: nat, r: nat)
    requires si < |segs| && pi < |segs[si].pages| && r < |segs[si].pages[pi].cells|
    ensures before + PageRows(segs, si, pi, r + 1)
      == before + PageRows(segs, si, pi, r) + (if segs[si].Live(pi, r) then [Row(segs[si].pages[pi].cells[r], si, pi, r)] else [])
  {
    var rows := before + PageRows(segs, si, pi, r);
    assert rows + [] == rows;
  }

  method CollectPage(segs: seq<KeySegment>, wide: bool, buf: TopKBuffer, si: nat, pi: nat, ghost before: seq<Row>)
    requires si < |segs| && pi < |segs[si].pages|
    requires buf.Valid() && buf.offers == OffersOf(segs, wide, before)
    modifies buf, buf.data, buf.heap, buf.heap.data
    ensures buf.Valid() && buf.heap.data == old(buf.heap.data)
    ensures buf.offers == OffersOf(segs, wide, before + WholePage(segs, si, pi))
  {
    hide OfferFor, FastPage;
    var noNull := FastPage(segs, wide, si, pi);
    assert before + PageRows(segs, si, pi, 0) == before;
    for r := 0 to |segs[si].pages[pi].cells|
      invariant buf.Valid() && buf.heap.data == old(buf.heap.data)
      invariant buf.offers == OffersOf(segs, wide, before + PageRows(segs, si, pi, r))
    {
      PageRowsStep(segs, before, si, pi, r);
      if !segs[si].Live(pi, r) {
        assert before + PageRows(segs, si, pi, r) + [] == before + PageRows(segs, si, pi, r);
        continue;
      }
      var row := Row(segs[si].pages[pi].cells[r], si, pi, r);
      OffersStep(segs, wide, before + PageRows(segs, si, pi, r), row);
      OfferIs(segs, wide, row);
      buf.Push(row, noNull);
    }
  }

  lemma SegmentStarts(segs: seq<KeySegment>, before: seq<Row>, mask: PageMask, si: nat)
    requires si < |segs|
    ensures before + SegmentRows(segs, mask, si, 0) == before
  {
  }

  lemma SegmentStep(segs: seq<KeySegment>, before: seq<Row>, mask: PageMask, si: nat, pi: nat)
    requires si < |segs| && pi < |segs[si].pages|
    ensures before + SegmentRows(segs, mask, si, pi + 1)
      == if Kept(mask, si, pi) then before + SegmentRows(segs, mask, si, pi) + WholePage(segs, si, pi) else before + SegmentRows(segs, mask, si, pi)
  {
    hide WholePage;
    assert before + (SegmentRows(segs, mask, si, pi) + WholePage(segs, si, pi)) == before + SegmentRows(segs, mask, si, pi) + WholePage(segs, si, pi);
  }

  method CollectSegment(segs: seq<KeySegment>, wide: bool, buf: TopKBuffer, mask: PageMask, si: nat, ghost before: seq<Row>)
    requires si < |segs|
    requires buf.Valid() && buf.offers == OffersOf(segs, wide, before)
    modifies buf, buf.data, buf.heap, buf.heap.data
    ensures buf.Valid() && buf.heap.data == old(buf.heap.data)
    ensures buf.offers == OffersOf(segs, wide, before + SegmentRows(segs, mask, si, |segs[si].pages|))
  {
    hide OffersOf, OfferFor, FastPage, SegmentRows, WholePage;
    SegmentStarts(segs, before, mask, si);
    for pi := 0 to |segs[si].pages|
      invariant buf.Valid() && buf.heap.data == old(buf.heap.data)
      invariant buf.offers == OffersOf(segs, wide, before + SegmentRows(segs, mask, si, pi))
    {
      SegmentStep(segs, before, mask, si, pi);
      if !Kept(mask, si, pi) {
        continue;
      }
      CollectPage(segs, wide, buf, si, pi, before + SegmentRows(segs, mask, si, pi));
    }
  }

  method Collect(segs: seq<KeySegment>, wide: bool, capN: nat, desc: bool, mask: PageMask) returns (buf: TopKBuffer)
    requires 0 < capN
    ensures fresh(buf) && buf.Valid() && buf.capN == capN && buf.desc == desc
    ensures buf.offers == OffersOf(segs, wide, ScanRows(segs, mask, |segs|))
  {
    buf := new TopKBuffer(capN, desc);
    for si := 0 to |segs|
      invariant fresh(buf) && fresh(buf.data) && fresh(buf.heap) && fresh(buf.heap.data)
      invariant buf.Valid() && buf.capN == capN && buf.desc == desc
      invariant buf.offers == OffersOf(segs, wide, ScanRows(segs, mask, si))
    {
      CollectSegment(segs, wide, buf, mask, si, ScanRows(segs, mask, si));
    }
  }

  function HeapCap(k: int, offset: int): (cap: nat) {
    if k <= 0 || offset < 0 || k + offset > STANDARD_BATCH_ROWS then 0 else k + offset
  }

  // Rows [offset, offset + k) of the whole table in sort order.
  function SortedTable(segs: seq<KeySegment>, k: nat, offset: nat, desc: bool): (rows: seq<Row>) {
    RowsOf(Slice(Sort(Numbered(TableRows(segs)), Before(desc)), offset, k))
  }

  lemma SliceOfTop(s: seq<Item>, offset: nat, k: nat)
    ensures Slice(Take(s, k + offset), offset, k) == Slice(s, offset, k)
    ensures RowsOf(Slice(s, offset, k)) == Slice(RowsOf(s), offset, k)
  {
  }

  lemma RowsOfSlice(a: seq<Item>, b: seq<Item>, offset: nat, k: nat)
    requires RowsOf(a) == RowsOf(b)
    ensures RowsOf(Slice(a, offset, k)) == RowsOf(Slice(b, offset, k))
  {
    SliceOfTop(a, offset, k);
    SliceOfTop(b, offset, k);
  }

  // The sorted array drops no row of the answer; a heap never does.
  ghost predicate ArrivalOrderKept(segs: seq<KeySegment>, wide: bool, cap: nat, desc: bool)
    requires 0 < cap
  {
    cap <= TOPK_INSERT_CAP_MAX ==> NothingLost(OffersOf(segs, wide, TableRows(segs)), cap, desc)
  }

  // ----- conditions on the rows of the table -----

  lemma {:induction false} FastPagesHoldValues(segs: seq<KeySegment>, wide: bool)
    ensures FastAreVal(OffersOf(segs, wide, TableRows(segs)))
  {
    var rows := TableRows(segs);
    TableRowsAre(segs);
    forall i | 0 <= i < |rows| && OfferFor(segs, wide, rows[i]).noNull ensures rows[i].cell.Val? {
      assert rows[i] in rows;
      assert RowInTable(segs, rows[i]);
      assert segs[rows[i].seg].pages[rows[i].page].AllValid();
    }
  }

  // Few rows; or the fast pages behind nulls hold keys on the right side of
  // zero; or ascending at most cap nulls and negative keys, descending at least
  // cap positive keys.
  ghost predicate KeysKeepOrder(segs: seq<KeySegment>, wide: bool, cap: nat, desc: bool) {
    || |TableRows(segs)| <= cap || cap > TOPK_INSERT_CAP_MAX
    || FastPathSafe(OffersOf(segs, wide, TableRows(segs)), desc)
    || Sparse(TableRows(segs), cap, desc)
  }

  // A heap, or room for every row.
  lemma FewOrMany(segs: seq<KeySegment>, wide: bool, cap: nat, desc: bool)
    requires cap > 256 || cap >= |TableRows(segs)|
    ensures KeysKeepOrder(segs, wide, cap, desc)
  {
  }

  lemma KeysDecide(segs: seq<KeySegment>, wide: bool, cap: nat, desc: bool)
    requires 0 < cap && |TableRows(segs)| <= SEQ_LIMIT && KeysKeepOrder(segs, wide, cap, desc)
    ensures ArrivalOrderKept(segs, wide, cap, desc)
  {
    hide NothingLost, FastPathSafe, Sparse, TableRows, FastAreVal, OfferFor;
    var offers := OffersOf(segs, wide, TableRows(segs));
    FastPagesHoldValues(segs, wide);
    if |TableRows(segs)| <= cap {
      FewRowsLoseNothing(offers, cap, desc);
    } else if FastPathSafe(offers, desc) {
      SafeLosesNothing(offers, cap, desc);
    } else if Sparse(TableRows(segs), cap, desc) {
      SparseLosesNothing(offers, cap, desc);
    }
  }

  // The rows from m on lie on fast pages, and what comes before them fills the array safely.
  ghost predicate FastFrom(segs: seq<KeySegment>, wide: bool, m: nat, cap: nat, desc: bool) {
    && 0 < cap <= m <= |TableRows(segs)| <= SEQ_LIMIT && cap <= TOPK_INSERT_CAP_MAX
    && FastPathSafe(OffersOf(segs, wide, TableRows(segs))[..m], desc)
    && forall i :: m <= i < |TableRows(segs)| ==> OfferFor(segs, wide, TableRows(segs)[i]).noNull
  }

  // Then the keys alone decide: descending by the rows that nulls block,
  // ascending by the room left for negative keys.
  ghost predicate KeysFit(rows: seq<Row>, m: nat, cap: nat, desc: bool)
    requires m <= |rows| && AllVal(rows[m..])
  {
    if desc then BlockedRowsAreLate(rows, m, cap) else NegativesFit(rows, m, cap)
  }

  // Ascending, the rows before m hold no null, or no negative key, or nothing but nulls is kept of them.
  predicate Decidable(rows: seq<Row>, m: nat, cap: nat, desc: bool)
    requires m <= |rows|
  {
    desc || NullRows(rows[..m]) == 0 || NullRows(rows[..m]) >= cap || NoNegativeRow(rows[..m])
  }

  lemma KeysDecideExactly(segs: seq<KeySegment>, wide: bool, m: nat, cap: nat, desc: bool)
    requires FastFrom(segs, wide, m, cap, desc) && Decidable(TableRows(segs), m, cap, desc)
    ensures AllVal(TableRows(segs)[m..])
    ensures ArrivalOrderKept(segs, wide, cap, desc) <==> KeysFit(TableRows(segs), m, cap, desc)
  {
    hide NothingLost, FastPathSafe, TableRows, OfferFor, BlockedRowsAreLate, NegativesFit, NullRows;
    var offers := OffersOf(segs, wide, TableRows(segs));
    FastPagesHoldValues(segs, wide);
    assert SlowThenFast(offers, m, cap, desc);
    if desc { DescRows(offers, m, cap); } else { AscRows(offers, m, cap); }
  }

  // No segment that takes the fast path comes after a segment with a null: after
  // one, each segment has a deletion vector or a null of its own.
  ghost predicate NullsComeLast(segs: seq<KeySegment>, wide: bool) {
    wide ==> forall a, b :: Delivered(segs, a) && Delivered(segs, b) && a.cell.Null? && a.seg < b.seg ==> HasDvOrNull(segs[b.seg])
  }

  ghost predicate HasDvOrNull(seg: KeySegment) {
    seg.dv.Some? || exists p, r :: 0 <= p < |seg.pages| && 0 <= r < |seg.pages[p].cells| && seg.pages[p].cells[r].Null?
  }

  lemma SlowAfterNull(segs: seq<KeySegment>, wide: bool, a: Row, b: Row)
    requires NullsComeLast(segs, wide) && Delivered(segs, a) && Delivered(segs, b) && a.cell.Null? && a.seg <= b.seg
    ensures !FastPage(segs, wide, b.seg, b.page)
  {
    if a.seg == b.seg {
      assert !segs[a.seg].pages[a.page].AllValid();
    } else if wide && segs[b.seg].dv.None? {
      assert HasDvOrNull(segs[b.seg]);
      var p, r :| 0 <= p < |segs[b.seg].pages| && 0 <= r < |segs[b.seg].pages[p].cells| && segs[b.seg].pages[p].cells[r].Null?;
      assert !segs[b.seg].pages[p].AllValid();
    }
  }

  lemma {:induction false} NullsLastIsSafe(segs: seq<KeySegment>, wide: bool, cap: nat, desc: bool)
    requires 0 < cap && |TableRows(segs)| <= SEQ_LIMIT && NullsComeLast(segs, wide)
    ensures ArrivalOrderKept(segs, wide, cap, desc)
  {
    hide NothingLost, TableRows, Delivered;
    var rows := TableRows(segs);
    var offers := OffersOf(segs, wide, rows);
    FastPagesHoldValues(segs, wide);
    TableRowsAre(segs);
    DeliveredAreRows(segs);
    forall i, j | 0 <= i <= j < |rows| && rows[i].cell.Null? ensures !OfferFor(segs, wide, rows[j]).noNull {
      assert rows[i] in rows && rows[j] in rows;
      SlowAfterNull(segs, wide, rows[i], rows[j]);
    }
    assert FastPathSafe(offers, desc);
    SafeLosesNothing(offers, cap, desc);
  }

  lemma KeysConclude(segs: seq<KeySegment>, wide: bool, cap: nat, desc: bool)
    requires 0 < cap
    ensures |TableRows(segs)| <= SEQ_LIMIT && KeysKeepOrder(segs, wide, cap, desc) ==> ArrivalOrderKept(segs, wide, cap, desc)
    ensures forall m: nat :: FastFrom(segs, wide, m, cap, desc) && Decidable(TableRows(segs), m, cap, desc) ==>
      |TableRows(segs)| <= SEQ_LIMIT && AllVal(TableRows(segs)[m..])
      && (ArrivalOrderKept(segs, wide, cap, desc) <==> KeysFit(TableRows(segs), m, cap, desc))
  {
    hide ArrivalOrderKept, KeysKeepOrder, KeysFit, TableRows, OfferFor, FastPathSafe, AllVal;
    if |TableRows(segs)| <= SEQ_LIMIT && KeysKeepOrder(segs, wide, cap, desc) { KeysDecide(segs, wide, cap, desc); }
    forall m: nat | FastFrom(segs, wide, m, cap, desc) && Decidable(TableRows(segs), m, cap, desc)
      ensures AllVal(TableRows(segs)[m..]) && (ArrivalOrderKept(segs, wide, cap, desc) <==> KeysFit(TableRows(segs), m, cap, desc))
    {
      KeysDecideExactly(segs, wide, m, cap, desc);
    }
  }

  // Different rows of the scan are different rows of the table.
  lemma NumberedRowOf(rows: seq<Row>, x: Item, y: Item)
    requires Apart(rows) && x in Numbered(rows) && y in Numbered(rows) && RowOf(x) == RowOf(y)
    ensures x == y
  {
    var i := NumberedMember(rows, x);
    var j := NumberedMember(rows, y);
  }

  // The rows emitted from the kept ones are right exactly when the kept ones are: a wrong one ranks last of all.
  lemma EmittedExact(rows: seq<Row>, offset: nat, k: nat, desc: bool, items: seq<Item>, sorted: seq<Item>)
    requires |rows| <= SEQ_LIMIT && Apart(rows) && 0 < k
    requires Distinct(items) && |items| == |TopN(Numbered(rows), k + offset, Before(desc))|
    requires forall x :: x in items ==> x in Numbered(rows)
    requires Sorted(sorted, Before(desc)) && multiset(sorted) == multiset(items)
    ensures RowsOf(Slice(sorted, offset, k)) == RowsOf(Slice(Sort(Numbered(rows), Before(desc)), offset, k))
      <==> multiset(items) == multiset(TopN(Numbered(rows), k + offset, Before(desc)))
  {
    hide Sort, Distinct, Tieless, WeakOrder, Slice, Numbered, Sorted;
    var lt := Before(desc);
    var s := Numbered(rows);
    var full := Sort(s, lt);
    var top := TopN(s, k + offset, lt);
    SliceOfTop(full, offset, k);
    if multiset(items) == multiset(top) {
      SortedContents(rows, k + offset, desc, items, sorted);
    }
    if RowsOf(Slice(sorted, offset, k)) == RowsOf(Slice(full, offset, k)) {
      StampedIsNumbered(rows);
      StampedDistinct(rows, desc);
      SortDistinct(s, lt);
      MultisetMembers(sorted, items);
      assert |sorted| == |multiset(sorted)| == |multiset(items)| == |items|;
      if |rows| <= k + offset {
        SubsetOfDistinct(items, s);
        SortMultiset(s, lt);
        assert top == full;
      } else {
        LastEmitted(sorted, full, offset, k);
        var last := full[k + offset - 1];
        NumberedRowOf(rows, sorted[k + offset - 1], last);
        forall x | x in items ensures x in top {
          UpToLast(s, k + offset, lt, sorted, x);
        }
        SubsetOfDistinct(items, top);
      }
    }
  }

  lemma LastEmitted(a: seq<Item>, b: seq<Item>, offset: nat, k: nat)
    requires |a| == k + offset <= |b| && 0 < k
    requires RowsOf(Slice(a, offset, k)) == RowsOf(Slice(b, offset, k))
    ensures RowOf(a[k + offset - 1]) == RowOf(b[k + offset - 1])
  {
    assert RowsOf(Slice(a, offset, k))[k - 1] == RowOf(a[k + offset - 1]);
    assert RowsOf(Slice(b, offset, k))[k - 1] == RowOf(b[k + offset - 1]);
  }

  // What is not after the n-th row is among the first n.
  lemma UpToLast(s: seq<Item>, n: nat, lt: (Item, Item) -> bool, sorted: seq<Item>, x: Item)
    requires WeakOrder(lt) && Tieless(s, lt) && Distinct(s) && 0 < n < |s|
    requires |Sort(s, lt)| == |s| && |sorted| == n && Sorted(sorted, lt) && sorted[n - 1] == Sort(s, lt)[n - 1]
    requires x in sorted && x in s
    ensures x in TopN(s, n, lt)
  {
    hide Sort, CountBefore;
    var r := Sort(s, lt);
    SortDistinct(s, lt);
    SortSorts(s, lt);
    var i :| 0 <= i < |r| && r[i] == x;
    assert r[n - 1] in s;
    LastIsGreatest(sorted, x, lt);
    StrictlySorted(s, r, lt, n - 1, i);
    assert i <= n - 1;
    assert Take(r, n)[i] == x;
  }

  // The numbers of a scan, as the array and the heap hold them.
  lemma KeptAreNumbered(offers: seq<Offer>, cap: nat, desc: bool)
    requires 0 < cap && |offers| <= SEQ_LIMIT
    ensures var kept, s := KeptRows(offers, cap, desc), Numbered(OfferedRows(offers));
      Distinct(kept) && |kept| == |TopN(s, cap, Before(desc))| && forall x :: x in kept ==> x in s
  {
    hide KeptRows, Dropped, Distinct, TopN, Stamped, Numbered, Tieless, WeakOrder;
    var kept, s := KeptRows(offers, cap, desc), Stamped(OfferedRows(offers));
    StampedIsNumbered(OfferedRows(offers));
    StampedDistinct(OfferedRows(offers), desc);
    KeptOrDropped(offers, cap, desc);
    TopNIff(s, cap, Before(desc), MakeItem(Row(Null, 0, 0, 0), 0));
    forall x ensures x in s <==> x in kept || x in Dropped(offers, cap, desc) {
      InEither(s, kept, Dropped(offers, cap, desc), x);
    }
    forall x ensures multiset(kept)[x] <= 1 {
      DistinctCount(s, x);
      assert multiset(s)[x] == multiset(kept)[x] + multiset(Dropped(offers, cap, desc))[x];
    }
    CountDistinct(kept);
  }

  // ORDER BY ... LIMIT k OFFSET offset over the whole table, or None for an
  // invalid limit.  The answer is the same slice of the fully sorted table, ties
  // included, if and only if the array loses no row of it.
  method BuildTopK(segs: seq<KeySegment>, wide: bool, k: int, offset: int, desc: bool) returns (out: Option<seq<Row>>)
    requires -INT64_MAX - 1 <= k <= INT64_MAX && -INT64_MAX - 1 <= offset <= INT64_MAX
    requires StatsCover(segs)
    ensures out.None? <==> k <= 0 || offset < 0 || k + offset > STANDARD_BATCH_ROWS
    ensures out.Some? && |TableRows(segs)| <= SEQ_LIMIT ==> forall x :: x in out.value ==> Delivered(segs, x)
    ensures out.Some? && |TableRows(segs)| <= SEQ_LIMIT ==>
      (out.value == SortedTable(segs, k, offset, desc) <==> ArrivalOrderKept(segs, wide, k + offset, desc))
    ensures out.Some? && |TableRows(segs)| <= SEQ_LIMIT && (k + offset > 256 || k + offset >= |TableRows(segs)|) ==>
      out.value == SortedTable(segs, k, offset, desc)
    ensures out.Some? && |TableRows(segs)| <= SEQ_LIMIT && KeysKeepOrder(segs, wide, k + offset, desc) ==>
      out.value == SortedTable(segs, k, offset, desc)
    ensures out.Some? && |TableRows(segs)| <= SEQ_LIMIT && NullsComeLast(segs, wide) ==>
      out.value == SortedTable(segs, k, offset, desc)
    ensures forall m: nat :: out.Some? && FastFrom(segs, wide, m, k + offset, desc) && Decidable(TableRows(segs), m, k + offset, desc) ==>
      AllVal(TableRows(segs)[m..])
      && (out.value == SortedTable(segs, k, offset, desc) <==> KeysFit(TableRows(segs), m, k + offset, desc))
    ensures out.Some? && k + offset <= TOPK_INSERT_CAP_MAX && (exists si :: 0 <= si < |segs| && !Prunable(segs[si])) ==>
      exists sorted :: && Sorted(sorted, Before(desc))
                       && multiset(sorted) == multiset(KeptRows(OffersOf(segs, wide, TableRows(segs)), k + offset, desc))
                       && out.value == RowsOf(Slice(sorted, offset, k))
  {
    hide NothingLost, KeptRows, Sorted, TopN, SortedTable, Slice, IsHeap, KeysKeepOrder, KeysFit, Decidable, FastFrom, AllVal,
      NullsComeLast, Delivered;
    var capN := HeapCap(k, offset);
    if capN == 0 {
      return None;
    }
    var mask := SelectTopKPages(segs, desc, k, offset);
    var buf := Collect(segs, wide, capN, desc, mask);
    var items := buf.Contents();
    var sorted := SortItems(items, desc);
    out := Some(RowsOf(Slice(sorted, offset, k)));
    KeysConclude(segs, wide, capN, desc);
    if |TableRows(segs)| <= SEQ_LIMIT {
      if capN > 256 || capN >= |TableRows(segs)| { FewOrMany(segs, wide, capN, desc); }
      if NullsComeLast(segs, wide) { NullsLastIsSafe(segs, wide, capN, desc); }
      EmittedAreDelivered(segs, wide, mask, capN, desc, items, sorted, offset, k);
      if mask.Some? {
        PruningIsExact(segs, mask, capN, desc);
        MaskedAnswer(segs, wide, mask, k, offset, desc, items, sorted);
      } else if capN <= TOPK_INSERT_CAP_MAX {
        WholeAnswer(segs, wide, k, offset, desc, sorted);
      } else {
        HeapAnswer(segs, k, offset, desc, items, sorted);
      }
    }
  }

  // Whatever is emitted is a row of the table that is not deleted.
  lemma EmittedAreDelivered(segs: seq<KeySegment>, wide: bool, mask: PageMask, cap: nat, desc: bool, items: seq<Item>, sorted: seq<Item>,
                            offset: nat, k: nat)
    requires 0 < cap && |TableRows(segs)| <= SEQ_LIMIT && multiset(sorted) == multiset(items)
    requires var offers := OffersOf(segs, wide, ScanRows(segs, mask, |segs|));
      || multiset(items) == multiset(KeptRows(offers, cap, desc))
      || (|offers| <= SEQ_LIMIT ==> multiset(items) == multiset(TopN(Numbered(OfferedRows(offers)), cap, Before(desc))))
    ensures forall x :: x in RowsOf(Slice(sorted, offset, k)) ==> Delivered(segs, x)
  {
    hide Delivered, KeptRows, TopN, Numbered, TableRows, ScanRows;
    var rows := ScanRows(segs, mask, |segs|);
    var offers := OffersOf(segs, wide, rows);
    ScannedAreDelivered(segs, mask);
    if multiset(items) == multiset(KeptRows(offers, cap, desc)) {
      KeptAreNumbered(offers, cap, desc);
      MultisetMembers(sorted, KeptRows(offers, cap, desc));
    } else {
      TopAreMembers(Numbered(rows), cap, Before(desc));
      MultisetMembers(sorted, TopN(Numbered(rows), cap, Before(desc)));
    }
    var out := Slice(sorted, offset, k);
    forall x | x in RowsOf(out) ensures Delivered(segs, x) {
      var i :| 0 <= i < |out| && RowsOf(out)[i] == x;
      SlicedIsMember(sorted, offset, k, i);
      var n := NumberedMember(rows, out[i]);
      assert rows[n] in rows;
    }
  }

  lemma SlicedIsMember(s: seq<Item>, offset: nat, k: nat, i: nat)
    requires i < |Slice(s, offset, k)|
    ensures Slice(s, offset, k)[i] in s
  {
    assert Slice(s, offset, k)[i] == s[offset + i];
  }

  lemma TopAreMembers(s: seq<Item>, n: nat, lt: (Item, Item) -> bool)
    ensures forall x :: x in TopN(s, n, lt) ==> x in s
  {
    SortMultiset(s, lt);
    MultisetMembers(Sort(s, lt), s);
    assert TopN(s, n, lt) <= Sort(s, lt);
  }

  lemma ScannedAreDelivered(segs: seq<KeySegment>, mask: PageMask)
    ensures |ScanRows(segs, mask, |segs|)| <= |TableRows(segs)|
    ensures forall x :: x in ScanRows(segs, mask, |segs|) ==> Delivered(segs, x)
  {
    hide Delivered;
    MaskedScan(segs, mask, |segs|);
    FilterLength(TableRows(segs), OnKeptPage(mask));
    FilterMembers(TableRows(segs), OnKeptPage(mask));
    TableRowsAre(segs);
  }

  lemma HeapAnswer(segs: seq<KeySegment>, k: nat, offset: nat, desc: bool, items: seq<Item>, sorted: seq<Item>)
    requires |TableRows(segs)| <= SEQ_LIMIT
    requires multiset(items) == multiset(TopN(Numbered(TableRows(segs)), k + offset, Before(desc)))
    requires Sorted(sorted, Before(desc)) && multiset(sorted) == multiset(items)
    ensures RowsOf(Slice(sorted, offset, k)) == SortedTable(segs, k, offset, desc)
  {
    SortedContents(TableRows(segs), k + offset, desc, items, sorted);
    SliceOfTop(Sort(Numbered(TableRows(segs)), Before(desc)), offset, k);
  }

  lemma WholeAnswer(segs: seq<KeySegment>, wide: bool, k: nat, offset: nat, desc: bool, sorted: seq<Item>)
    requires |TableRows(segs)| <= SEQ_LIMIT && 0 < k && k + offset <= TOPK_INSERT_CAP_MAX
    requires Sorted(sorted, Before(desc))
    requires multiset(sorted) == multiset(KeptRows(OffersOf(segs, wide, TableRows(segs)), k + offset, desc))
    ensures RowsOf(Slice(sorted, offset, k)) == SortedTable(segs, k, offset, desc) <==> ArrivalOrderKept(segs, wide, k + offset, desc)
  {
    hide NothingLost, KeptRows, Sorted, TopN, Slice, Sort, Distinct;
    var rows := TableRows(segs);
    var offers := OffersOf(segs, wide, rows);
    TableRowsAre(segs);
    StampedIsNumbered(rows);
    KeptAreNumbered(offers, k + offset, desc);
    KeptExact(offers, k + offset, desc);
    EmittedExact(rows, offset, k, desc, KeptRows(offers, k + offset, desc), sorted);
  }

  lemma MaskedAnswer(segs: seq<KeySegment>, wide: bool, mask: PageMask, k: nat, offset: nat, desc: bool, items: seq<Item>, sorted: seq<Item>)
    requires |TableRows(segs)| <= SEQ_LIMIT && 0 < k + offset
    requires forall si :: 0 <= si < |segs| ==> Prunable(segs[si])
    requires var offers := OffersOf(segs, wide, ScanRows(segs, mask, |segs|));
      |offers| <= SEQ_LIMIT && NothingLost(offers, k + offset, desc) ==>
        multiset(items) == multiset(TopN(Numbered(OfferedRows(offers)), k + offset, Before(desc)))
    requires RowsOf(TopN(Numbered(ScanRows(segs, mask, |segs|)), k + offset, Before(desc)))
          == RowsOf(TopN(Numbered(TableRows(segs)), k + offset, Before(desc)))
    requires Sorted(sorted, Before(desc)) && multiset(sorted) == multiset(items)
    ensures RowsOf(Slice(sorted, offset, k)) == SortedTable(segs, k, offset, desc) && ArrivalOrderKept(segs, wide, k + offset, desc)
  {
    hide NothingLost, KeptRows, Sorted, Slice, Sort, FastPathSafe;
    var capN := k + offset;
    MaskedScan(segs, mask, |segs|);
    FilterLength(TableRows(segs), OnKeptPage(mask));
    PrunedScanIsFastPathSafe(segs, wide, mask, desc);
    SafeLosesNothing(OffersOf(segs, wide, ScanRows(segs, mask, |segs|)), capN, desc);
    SortedContents(ScanRows(segs, mask, |segs|), capN, desc, items, sorted);
    var full := Sort(Numbered(TableRows(segs)), Before(desc));
    RowsOfSlice(sorted, Take(full, capN), offset, k);
    SliceOfTop(full, offset, k);
    PrunedScanIsFastPathSafe(segs, wide, None, desc);
    SafeLosesNothing(OffersOf(segs, wide, TableRows(segs)), capN, desc);
  }

  lemma PrunedScanIsFastPathSafe(segs: seq<KeySegment>, wide: bool, mask: PageMask, desc: bool)
    requires forall si :: 0 <= si < |segs| ==> Prunable(segs[si])
    ensures FastPathSafe(OffersOf(segs, wide, ScanRows(segs, mask, |segs|)), desc)
  {
    var rows := ScanRows(segs, mask, |segs|);
    forall i | 0 <= i < |rows| ensures rows[i].cell.Val? {
      MaskedRowIsValid(segs, mask, rows[i]);
    }
    ValidRowsAreSafe(segs, wide, rows, desc);
  }

  lemma ValidRowsAreSafe(segs: seq<KeySegment>, wide: bool, rows: seq<Row>, desc: bool)
    requires forall i :: 0 <= i < |rows| ==> rows[i].cell.Val?
    ensures FastPathSafe(OffersOf(segs, wide, rows), desc)
  {
  }

  lemma MaskedRowIsValid(segs: seq<KeySegment>, mask: PageMask, r: Row)
    requires forall si :: 0 <= si < |segs| ==> Prunable(segs[si])
    requires r in ScanRows(segs, mask, |segs|)
    ensures r.cell.Val?
  {
    MaskedScan(segs, mask, |segs|);
    FilterMembers(TableRows(segs), OnKeptPage(mask));
    TableRowsAre(segs);
    assert RowInTable(segs, r);
    assert segs[r.seg].pages[r.page].AllValid();
  }

  // A two-segment table: a null, then -5.
  function NullThenValue(): (segs: seq<KeySegment>) {
    [KeySegment([KeyPage(0, [Null], 0, 0)], None), KeySegment([KeyPage(0, [Val(-5)], -5, -5)], None)]
  }

  const NULL_ROW := Row(Null, 0, 0, 0)
  const VALUE_ROW := Row(Val(-5), 1, 0, 0)

  lemma NullThenValueRows()
    ensures TableRows(NullThenValue()) == [NULL_ROW, VALUE_ROW]
    ensures OffersOf(NullThenValue(), true, [NULL_ROW, VALUE_ROW]) == [Offer(NULL_ROW, false), Offer(VALUE_ROW, true)]
  {
    var segs := NullThenValue();
    assert WholePage(segs, 0, 0) == [NULL_ROW] && WholePage(segs, 1, 0) == [VALUE_ROW];
    assert SegmentRows(segs, None, 0, 1) == [NULL_ROW] && SegmentRows(segs, None, 1, 1) == [VALUE_ROW];
    assert ScanRows(segs, None, 1) == [NULL_ROW];
  }

  lemma SortTwo(x: Item, y: Item, desc: bool)
    requires Before(desc)(y, x)
    ensures Sort([x, y], Before(desc)) == [y, x]
  {
    assert [x, y][..1] == [x] && [x][..0] == [];
    assert Sort([x], Before(desc)) == [x];
    assert Insert([], y, Before(desc)) == [y];
    assert Insert([x], y, Before(desc)) == [y, x];
  }

  // The condition is needed: with a null in the first segment and -5 in the
  // second, ORDER BY key DESC LIMIT 1 keeps the null although nulls come last.
  lemma FastPathMisranksNulls()
    ensures StatsCover(NullThenValue()) && |NullThenValue()| == 2 && !Prunable(NullThenValue()[0])
    ensures KeptRows(OffersOf(NullThenValue(), true, TableRows(NullThenValue())), 1, true) == [MakeItem(NULL_ROW, 0)]
    ensures SortedTable(NullThenValue(), 1, 0, true) == [VALUE_ROW]
  {
    NullThenValueRows();
    var x, y := MakeItem(NULL_ROW, 0), MakeItem(VALUE_ROW, 1);
    var offers := [Offer(NULL_ROW, false), Offer(VALUE_ROW, true)];
    assert offers[..1] == [Offer(NULL_ROW, false)] && offers[..1][..0] == [];
    assert KeptRows(offers[..1], 1, true) == [x];
    assert KeptRows(offers, 1, true) == [x];
    assert Numbered([NULL_ROW, VALUE_ROW]) == [x, y];
    SortTwo(x, y, true);
  }

  // The null row is what the scan emits.
  method NullIsEmitted() returns (out: Option<seq<Row>>)
    ensures out == Some([NULL_ROW]) && SortedTable(NullThenValue(), 1, 0, true) == [VALUE_ROW]
  {
    hide KeptRows, SortedTable, NothingLost, ArrivalOrderKept, OffersOf, TableRows, Sorted, NullThenValue, Prunable, StatsCover;
    FastPathMisranksNulls();
    out := BuildTopK(NullThenValue(), true, 1, 0, true);
    ghost var x := MakeItem(NULL_ROW, 0);
    ghost var sorted :| Sorted(sorted, Before(true)) && multiset(sorted) == multiset([x]) && out.value == RowsOf(Slice(sorted, 0, 1));
    OnlyArrangement(sorted, x);
    assert RowsOf(Slice([x], 0, 1)) == [NULL_ROW];
  }

  lemma OnlyArrangement(s: seq<Item>, x: Item)
    requires multiset(s) == multiset([x])
    ensures s == [x]
  {
    assert |s| == |multiset(s)| == 1;
    assert s[0] in multiset(s);
  }
}
