// The sort operator over one integer key: streaming top-K when the limit fits
// a heap, otherwise a sort of the row permutation.
module SortOp {
  import opened Options
  import opened Sorting
  import opened SortOrder
  import opened KeyScan
  import opened PagePruning
  import opened TopKHeap
  import opened TopKOffers
  import opened TopKScan

  // A source batch: the key cells and the selected rows.
  datatype SortBatch = SortBatch(cells: seq<Cell>, sel: seq<bool>) {
    ghost predicate Valid() { |sel| == |cells| }
  }

  function BatchRows(batches: seq<SortBatch>, bi: nat, n: nat): (rows: seq<Row>)
    requires bi < |batches| && batches[bi].Valid() && n <= |batches[bi].cells|
  {
    if n == 0 then []
    else if batches[bi].sel[n - 1] then
      BatchRows(batches, bi, n - 1) + [Row(batches[bi].cells[n - 1], bi, 0, n - 1)]
    else BatchRows(batches, bi, n - 1)
  }

  // The selected rows of the first n batches, in arrival order.
  function SelectedRows(batches: seq<SortBatch>, n: nat): (rows: seq<Row>)
    requires n <= |batches| && forall b :: b in batches ==> b.Valid()
  {
    if n == 0 then [] else SelectedRows(batches, n - 1) + BatchRows(batches, n - 1, |batches[n - 1].cells|)
  }

  // A row of the given batches that is selected.
  ghost predicate IsSelected(batches: seq<SortBatch>, r: Row) {
    && r.seg < |batches| && r.page == 0 && r.row < |batches[r.seg].cells| && r.row < |batches[r.seg].sel|
    && r.cell == batches[r.seg].cells[r.row] && batches[r.seg].sel[r.row]
  }

  lemma {:induction false} BatchRowsAre(batches: seq<SortBatch>, bi: nat, n: nat)
    requires bi < |batches| && batches[bi].Valid() && n <= |batches[bi].cells|
    ensures forall x :: x in BatchRows(batches, bi, n) <==> IsSelected(batches, x) && x.seg == bi && x.row < n
    ensures InScanOrder(BatchRows(batches, bi, n))
  {
    if n > 0 {
      BatchRowsAre(batches, bi, n - 1);
      var front := BatchRows(batches, bi, n - 1);
      forall i | 0 <= i < |front| ensures front[i].row < n - 1 { assert front[i] in front; }
    }
  }

  // The selected rows, by batch and row, each once.
  lemma {:induction false} SelectedRowsAre(batches: seq<SortBatch>, n: nat)
    requires n <= |batches| && forall b :: b in batches ==> b.Valid()
    ensures forall x :: x in SelectedRows(batches, n) <==> IsSelected(batches, x) && x.seg < n
    ensures InScanOrder(SelectedRows(batches, n))
  {
    if n > 0 {
      SelectedRowsAre(batches, n - 1);
      BatchRowsAre(batches, n - 1, |batches[n - 1].cells|);
      InOrderConcat(SelectedRows(batches, n - 1), BatchRows(batches, n - 1, |batches[n - 1].cells|));
    }
  }

  function HeapCapUnknown(k: int, offset: int): (cap: int) {
    if k <= 0 then 0
    else if k + offset <= 0 || k + offset > MAX_INT32 then 0
    else k + offset
  }

  function SlowOffers(rows: seq<Row>): (offers: seq<Offer>)
    ensures OfferedRows(offers) == rows && |offers| == |rows|
  {
    seq(|rows|, i requires 0 <= i < |rows| => Offer(rows[i], false))
  }

  lemma SlowIsSafe(rows: seq<Row>, desc: bool)
    ensures FastPathSafe(SlowOffers(rows), desc)
  {
  }

  lemma SlowNothing()
    ensures SlowOffers([]) == []
  {
  }

  lemma SlowOffersStep(rows: seq<Row>, r: Row)
    ensures SlowOffers(rows + [r]) == SlowOffers(rows) + [Offer(r, false)]
  {
  }

  method PushBatch(batches: seq<SortBatch>, bi: nat, buf: TopKBuffer, ghost before: seq<Row>)
    requires bi < |batches| && batches[bi].Valid()
    requires buf.Valid() && buf.offers == SlowOffers(before)
    modifies buf, buf.data, buf.heap, buf.heap.data
    ensures buf.Valid() && buf.heap.data == old(buf.heap.data)
    ensures buf.offers == SlowOffers(before + BatchRows(batches, bi, |batches[bi].cells|))
  {
    assert before + BatchRows(batches, bi, 0) == before;
    for row := 0 to |batches[bi].cells|
      invariant buf.Valid() && buf.heap.data == old(buf.heap.data)
      invariant buf.offers == SlowOffers(before + BatchRows(batches, bi, row))
    {
      if !batches[bi].sel[row] {
        continue;
      }
      var r := Row(batches[bi].cells[row], bi, 0, row);
      SlowOffersStep(before + BatchRows(batches, bi, row), r);
      assert before + BatchRows(batches, bi, row) + [r] == before + BatchRows(batches, bi, row + 1);
      buf.Push(r, false);
    }
  }

  // The rows of the result, in order: the streaming path keeps k + offset rows
  // and drops the first offset of them.
  method StreamTopK(batches: seq<SortBatch>, k: nat, offset: nat, desc: bool) returns (out: seq<Row>)
    requires forall b :: b in batches ==> b.Valid()
    requires 0 < k
    ensures |SelectedRows(batches, |batches|)| <= SEQ_LIMIT ==>
      out == RowsOf(Slice(Sort(Numbered(SelectedRows(batches, |batches|)), Before(desc)), offset, k))
  {
    hide NothingLost, KeptRows, TopN, Stamped, Sort, Sorted, Before, IsHeap, Drop, Slice, SlowOffers;
    var buf := new TopKBuffer(k + offset, desc);
    SlowNothing();
    for bi := 0 to |batches|
      invariant fresh(buf) && fresh(buf.data) && fresh(buf.heap) && fresh(buf.heap.data)
      invariant buf.Valid() && buf.capN == k + offset && buf.desc == desc
      invariant buf.offers == SlowOffers(SelectedRows(batches, bi))
    {
      PushBatch(batches, bi, buf, SelectedRows(batches, bi));
    }
    var items := buf.Contents();
    var sorted := items;
    if !buf.useInsert {
      sorted := SortItems(items, desc);
    }
    out := RowsOf(Drop(sorted, offset));
    ghost var rows := SelectedRows(batches, |batches|);
    if |rows| <= SEQ_LIMIT {
      StreamedIsSlice(rows, k, offset, desc, buf.useInsert, items, sorted);
    }
  }

  lemma StreamedIsSlice(rows: seq<Row>, k: nat, offset: nat, desc: bool, useInsert: bool, items: seq<Item>, sorted: seq<Item>)
    requires 0 < k && |rows| <= SEQ_LIMIT
    requires multiset(items) == multiset(TopN(Numbered(rows), k + offset, Before(desc)))
      <==> (useInsert ==> NothingLost(SlowOffers(rows), k + offset, desc))
    requires useInsert ==> items == KeptRows(SlowOffers(rows), k + offset, desc) && sorted == items
    requires !useInsert ==> Sorted(sorted, Before(desc)) && multiset(sorted) == multiset(items)
    ensures Drop(sorted, offset) == Slice(Sort(Numbered(rows), Before(desc)), offset, k)
  {
    hide Sort, Before, KeptRows, Take, Drop, NothingLost, FastPathSafe;
    SlowIsSafe(rows, desc);
    SafeLosesNothing(SlowOffers(rows), k + offset, desc);
    if useInsert {
      KeptRowsAreTopN(SlowOffers(rows), k + offset, desc);
      StampedIsNumbered(rows);
    } else {
      SortedContents(rows, k + offset, desc, items, sorted);
    }
    DropTake(Sort(Numbered(rows), Before(desc)), k, offset);
  }

  lemma DropTake(full: seq<Item>, k: nat, offset: nat)
    ensures Drop(Take(full, k + offset), offset) == Slice(full, offset, k)
  {
  }

  // ----- the full sort -----

  // The comparator on positions, reading the key and null arrays.
  function ByKey(keys: seq<int>, nulls: seq<bool>, desc: bool): (lt: (nat, nat) -> bool)
    requires |keys| == |nulls|
  {
    (a: nat, b: nat) => CmpItem(KeyAt(keys, nulls, a), KeyAt(keys, nulls, b), desc) < 0
  }

  function KeyAt(keys: seq<int>, nulls: seq<bool>, i: nat): Item
    requires |keys| == |nulls|
  {
    if i < |keys| then Item(keys[i], nulls[i], i, 0, 0, 0) else Item(0, false, i, 0, 0, 0)
  }

  function Indices(n: nat): (s: seq<nat>)
    ensures |s| == n && forall i :: 0 <= i < n ==> s[i] == i
  {
    seq(n, i => i)
  }

  lemma ByKeyIsWeakOrder(keys: seq<int>, nulls: seq<bool>, desc: bool, n: nat)
    requires |keys| == |nulls|
    ensures WeakOrder(ByKey(keys, nulls, desc)) && Tieless(Indices(n), ByKey(keys, nulls, desc))
  {
    var lt := ByKey(keys, nulls, desc);
    forall a, b ensures lt(a, b) ==> !lt(b, a) {
      CmpIsTotalOrder(KeyAt(keys, nulls, a), KeyAt(keys, nulls, b), KeyAt(keys, nulls, a), desc);
    }
    forall a, b, c ensures !lt(a, b) && !lt(b, c) ==> !lt(a, c) {
      CmpIsTotalOrder(KeyAt(keys, nulls, c), KeyAt(keys, nulls, b), KeyAt(keys, nulls, a), desc);
      CmpIsTotalOrder(KeyAt(keys, nulls, a), KeyAt(keys, nulls, b), KeyAt(keys, nulls, c), desc);
      CmpIsTotalOrder(KeyAt(keys, nulls, b), KeyAt(keys, nulls, c), KeyAt(keys, nulls, a), desc);
      CmpIsTotalOrder(KeyAt(keys, nulls, a), KeyAt(keys, nulls, c), KeyAt(keys, nulls, b), desc);
    }
    forall x, y | x in Indices(n) && y in Indices(n) && x != y ensures lt(x, y) || lt(y, x) {
      CmpIsTotalOrder(KeyAt(keys, nulls, x), KeyAt(keys, nulls, y), KeyAt(keys, nulls, x), desc);
    }
  }

  // slices.SortFunc on the permutation: some arrangement sorted by key, null flag and position.
  method SortIndices(keys: seq<int>, nulls: seq<bool>, desc: bool) returns (order: seq<nat>)
    requires |keys| == |nulls|
    ensures multiset(order) == multiset(Indices(|keys|)) && Sorted(order, ByKey(keys, nulls, desc))
  {
    ByKeyIsWeakOrder(keys, nulls, desc, |keys|);
    SortSorts(Indices(|keys|), ByKey(keys, nulls, desc));
    SortMultiset(Indices(|keys|), ByKey(keys, nulls, desc));
    order := Sort(Indices(|keys|), ByKey(keys, nulls, desc));
  }

  // The item a position stands for.
  function ItemAt(rows: seq<Row>): (f: nat -> Item) {
    (i: nat) => if i < |rows| then MakeItem(rows[i], i) else Item(0, false, i, 0, 0, 0)
  }

  // The sorted permutation, read as items, is the sort of the items.
  lemma PermutationIsSort(rows: seq<Row>, keys: seq<int>, nulls: seq<bool>, desc: bool, order: seq<nat>)
    requires |keys| == |nulls| == |rows|
    requires forall i :: 0 <= i < |rows| ==> ItemAt(rows)(i).key == keys[i] && ItemAt(rows)(i).isNull == nulls[i]
    requires multiset(order) == multiset(Indices(|rows|)) && Sorted(order, ByKey(keys, nulls, desc))
    ensures Map(order, ItemAt(rows)) == Sort(Numbered(rows), Before(desc))
    ensures forall i :: 0 <= i < |order| ==> order[i] < |rows|
  {
    hide Sort, Sorted;
    var all, lt := Indices(|rows|), ByKey(keys, nulls, desc);
    ByKeyIsWeakOrder(keys, nulls, desc, |rows|);
    AnySortIsSort(all, order, lt);
    ByKeyReadsItems(rows, keys, nulls, desc);
    SortMap(all, ItemAt(rows), lt, Before(desc));
    assert Map(all, ItemAt(rows)) == Numbered(rows);
    MultisetMembers(order, all);
    forall i | 0 <= i < |order| ensures order[i] < |rows| {
      assert order[i] in order;
    }
  }

  lemma ByKeyReadsItems(rows: seq<Row>, keys: seq<int>, nulls: seq<bool>, desc: bool)
    requires |keys| == |nulls| == |rows|
    requires forall i :: 0 <= i < |rows| ==> ItemAt(rows)(i).key == keys[i] && ItemAt(rows)(i).isNull == nulls[i]
    ensures OrderPreserved(Indices(|rows|), ItemAt(rows), ByKey(keys, nulls, desc), Before(desc))
  {
  }

  // The whole selection in sort order, by sorting the row permutation.
  method FullSort(rows: seq<Row>, desc: bool) returns (order: seq<nat>)
    ensures forall i :: 0 <= i < |order| ==> order[i] < |rows|
    ensures Map(order, ItemAt(rows)) == Sort(Numbered(rows), Before(desc))
  {
    var keys: seq<int>, nulls: seq<bool> := [], [];
    for i := 0 to |rows|
      invariant |keys| == |nulls| == i
      invariant forall j :: 0 <= j < i ==> ItemAt(rows)(j).key == keys[j] && ItemAt(rows)(j).isNull == nulls[j]
    {
      if rows[i].cell.Null? {
        keys, nulls := keys + [0], nulls + [true];
      } else {
        keys, nulls := keys + [rows[i].cell.v], nulls + [false];
      }
    }
    order := SortIndices(keys, nulls, desc);
    PermutationIsSort(rows, keys, nulls, desc, order);
  }

  method SelectBatch(batches: seq<SortBatch>, bi: nat, before: seq<Row>) returns (rows: seq<Row>)
    requires bi < |batches| && batches[bi].Valid()
    ensures rows == before + BatchRows(batches, bi, |batches[bi].cells|)
  {
    rows := before;
    assert before + BatchRows(batches, bi, 0) == before;
    for row := 0 to |batches[bi].cells|
      invariant rows == before + BatchRows(batches, bi, row)
    {
      if batches[bi].sel[row] {
        rows := rows + [Row(batches[bi].cells[row], bi, 0, row)];
      }
    }
  }

  method EmitOrder(rows: seq<Row>, order: seq<nat>) returns (out: seq<Row>)
    requires forall i :: 0 <= i < |order| ==> order[i] < |rows|
    ensures out == RowsOf(Map(order, ItemAt(rows)))
  {
    out := [];
    for i := 0 to |order|
      invariant out == RowsOf(Map(order[..i], ItemAt(rows)))
    {
      assert Map(order[..i + 1], ItemAt(rows)) == Map(order[..i], ItemAt(rows)) + [ItemAt(rows)(order[i])];
      out := out + [rows[order[i]]];
    }
    assert order[..|order|] == order;
  }

  // The rows the operator emits.  The full-sort path of an integer key applies
  // no limit of its own.
  method BuildSort(batches: seq<SortBatch>, k: int, offset: nat, desc: bool) returns (out: seq<Row>)
    requires forall b :: b in batches ==> b.Valid()
    ensures var rows := SelectedRows(batches, |batches|); |rows| <= SEQ_LIMIT ==>
      out == Emitted(rows, k, offset, desc)
  {
    hide Sort, Before, Slice;
    if k > 0 && HeapCapUnknown(k, offset) > 0 {
      out := StreamTopK(batches, k, offset, desc);
      return;
    }
    var rows := [];
    for bi := 0 to |batches|
      invariant rows == SelectedRows(batches, bi)
    {
      rows := SelectBatch(batches, bi, rows);
    }
    var order := FullSort(rows, desc);
    out := EmitOrder(rows, order);
  }

  function Emitted(rows: seq<Row>, k: int, offset: nat, desc: bool): (out: seq<Row>) {
    var sorted := Sort(Numbered(rows), Before(desc));
    RowsOf(if k > 0 && HeapCapUnknown(k, offset) > 0 then Slice(sorted, offset, k) else sorted)
  }

  // What is emitted under ORDER BY ... LIMIT k OFFSET offset is the requested
  // slice exactly when k is positive and the limit fits the heap, or the slice
  // is everything anyway.
  lemma LimitHonoured(rows: seq<Row>, k: nat, offset: nat, desc: bool)
    ensures Emitted(rows, k, offset, desc) == RowsOf(Slice(Sort(Numbered(rows), Before(desc)), offset, k))
      <==> (0 < k && k + offset <= MAX_INT32) || |rows| == 0 || (offset == 0 && k >= |rows|)
  {
    var sorted := Sort(Numbered(rows), Before(desc));
    SortMultiset(Numbered(rows), Before(desc));
    if k == 0 || k + offset > MAX_INT32 {
      if |Slice(sorted, offset, k)| == |sorted| {
        assert Slice(sorted, offset, k) == sorted;
      }
    }
  }

  // LIMIT 0 asks for nothing and gets the whole selection.
  method LimitZeroEmitsAll(batches: seq<SortBatch>, offset: nat, desc: bool) returns (out: seq<Row>)
    requires forall b :: b in batches ==> b.Valid()
    requires |SelectedRows(batches, |batches|)| <= SEQ_LIMIT
    ensures |out| == |SelectedRows(batches, |batches|)|
    ensures |Slice(Sort(Numbered(SelectedRows(batches, |batches|)), Before(desc)), offset, 0)| == 0
  {
    out := BuildSort(batches, 0, offset, desc);
    SortMultiset(Numbered(SelectedRows(batches, |batches|)), Before(desc));
  }
}
