// The row order of ORDER BY over one integer key: the comparator every
// integer sort path shares, and the items it compares.
module SortOrder {
  import opened Sorting

  // A key cell as the scan delivers it.
  datatype Cell = Null | Val(v: int)

  // Where a row lives, and its key.
  datatype Row = Row(cell: Cell, seg: nat, page: nat, row: nat)

  // By segment or batch, then page, then row.
  predicate ScannedBefore(a: Row, b: Row) {
    a.seg < b.seg || (a.seg == b.seg && (a.page < b.page || (a.page == b.page && a.row < b.row)))
  }

  // A row tagged with its arrival number; key is 0 when isNull.
  datatype Item = Item(key: int, isNull: bool, seqNo: nat, seg: nat, page: nat, row: nat)

  // The arrival counter is a uint32.
  const SEQ_LIMIT: nat := 0x1_0000_0000

  function MakeItem(r: Row, seqNo: nat): Item {
    match r.cell
    case Null => Item(0, true, seqNo, r.seg, r.page, r.row)
    case Val(v) => Item(v, false, seqNo, r.seg, r.page, r.row)
  }

  function RowOf(x: Item): Row {
    Row(if x.isNull then Null else Val(x.key), x.seg, x.page, x.row)
  }

  // The rows of a scan numbered in arrival order, without and with wrap-around.
  function Numbered(rows: seq<Row>): (items: seq<Item>)
    ensures |items| == |rows|
    ensures forall i :: 0 <= i < |rows| ==> items[i] == MakeItem(rows[i], i)
  {
    seq(|rows|, i requires 0 <= i < |rows| => MakeItem(rows[i], i))
  }

  function Stamped(rows: seq<Row>): (items: seq<Item>)
    ensures |items| == |rows|
    ensures forall i :: 0 <= i < |rows| ==> items[i] == MakeItem(rows[i], i % SEQ_LIMIT)
  {
    seq(|rows|, i requires 0 <= i < |rows| => MakeItem(rows[i], i % SEQ_LIMIT))
  }

  function CmpInt64Sort(ak: int, anull: bool, ai: nat, bk: int, bnull: bool, bi: nat, desc: bool): (c: int) {
    if anull != bnull then
      var c := if anull then -1 else 1;
      if desc then -c else c
    else if !anull && ak < bk then (if desc then 1 else -1)
    else if !anull && ak > bk then (if desc then -1 else 1)
    else if ai < bi then -1
    else if ai > bi then 1
    else 0
  }

  function CmpItem(a: Item, b: Item, desc: bool): (c: int) {
    CmpInt64Sort(a.key, a.isNull, a.seqNo, b.key, b.isNull, b.seqNo, desc)
  }

  function Before(desc: bool): (lt: (Item, Item) -> bool) {
    (a: Item, b: Item) => CmpItem(a, b, desc) < 0
  }

  // The comparator used when a page is known to hold no null and no deleted row.
  predicate TopKNoNullBefore(ak: int, ai: nat, bk: int, bi: nat, desc: bool) {
    if ak != bk then (if desc then ak > bk else ak < bk) else ai < bi
  }

  // What the comparator means: ascending puts nulls first, descending puts them
  // last, keys decide next, arrival order breaks ties; and it is a total order.
  lemma CmpIsTotalOrder(a: Item, b: Item, c: Item, desc: bool)
    ensures CmpItem(a, b, desc) < 0 <==>
      || (a.isNull && !b.isNull && !desc)
      || (!a.isNull && b.isNull && desc)
      || (!a.isNull && !b.isNull && (if desc then a.key > b.key else a.key < b.key))
      || (a.isNull == b.isNull && (a.isNull || a.key == b.key) && a.seqNo < b.seqNo)
    ensures CmpItem(a, b, desc) == -CmpItem(b, a, desc)
    ensures CmpItem(a, b, desc) <= 0 && CmpItem(b, c, desc) <= 0 ==> CmpItem(a, c, desc) <= 0
    ensures CmpItem(a, b, desc) == 0 ==> a.seqNo == b.seqNo
    ensures !a.isNull && !b.isNull ==>
      (TopKNoNullBefore(a.key, a.seqNo, b.key, b.seqNo, desc) <==> CmpItem(a, b, desc) < 0)
  {
  }

  lemma BeforeIsWeakOrder(desc: bool)
    ensures WeakOrder(Before(desc))
  {
  }

  ghost predicate DistinctSeqNos(s: seq<Item>) {
    forall x, y :: x in s && y in s && x != y ==> x.seqNo != y.seqNo
  }

  lemma DistinctIsTieless(s: seq<Item>, desc: bool)
    requires DistinctSeqNos(s)
    ensures Tieless(s, Before(desc))
  {
  }

  // As long as the counter does not wrap, the stamps are the arrival numbers.
  lemma StampedIsNumbered(rows: seq<Row>)
    requires |rows| <= SEQ_LIMIT
    ensures Stamped(rows) == Numbered(rows)
    ensures DistinctSeqNos(Stamped(rows))
  {
    forall i | 0 <= i < |rows| ensures Stamped(rows)[i] == Numbered(rows)[i] && Stamped(rows)[i].seqNo == i {
      assert i % SEQ_LIMIT == i;
    }
  }

  // Past 2^32 rows the counter wraps and arrival order is lost: of two equal
  // keys the one that arrived 2^32 rows later is ranked first.
  lemma WrappedSeqNoBreaksTies(rows: seq<Row>, desc: bool)
    requires |rows| > SEQ_LIMIT
    requires rows[1].cell == rows[SEQ_LIMIT].cell
    ensures Before(desc)(Stamped(rows)[SEQ_LIMIT], Stamped(rows)[1])
    ensures Before(desc)(Numbered(rows)[1], Numbered(rows)[SEQ_LIMIT])
  {
    assert SEQ_LIMIT % SEQ_LIMIT == 0;
  }

  lemma StampedStep(rows: seq<Row>, r: Row)
    ensures Stamped(rows + [r]) == Stamped(rows) + [MakeItem(r, |rows| % SEQ_LIMIT)]
  {
  }

  // ----- removing rows from the scan does not change how the rest is ordered -----

  function KeptBefore(rows: seq<Row>, n: nat, p: Row -> bool): (k: nat)
    requires n <= |rows|
    ensures k <= n
  {
    if n == 0 then 0 else KeptBefore(rows, n - 1, p) + (if p(rows[n - 1]) then 1 else 0)
  }

  lemma {:induction false} KeptBeforeMono(rows: seq<Row>, m: nat, n: nat, p: Row -> bool)
    requires m <= n <= |rows|
    ensures KeptBefore(rows, m, p) <= KeptBefore(rows, n, p)
    ensures m < n && p(rows[m]) ==> KeptBefore(rows, m, p) < KeptBefore(rows, n, p)
  {
    if m < n { KeptBeforeMono(rows, m, n - 1, p); }
  }

  // Renumbers an item by its position among the kept rows.
  function Renumber(rows: seq<Row>, p: Row -> bool): (f: Item -> Item) {
    (x: Item) => if x.seqNo <= |rows| then x.(seqNo := KeptBefore(rows, x.seqNo, p)) else x
  }

  lemma {:induction false} KeptBeforePrefix(rows: seq<Row>, n: nat, m: nat, p: Row -> bool)
    requires n <= m <= |rows|
    ensures KeptBefore(rows[..m], n, p) == KeptBefore(rows, n, p)
  {
    if n > 0 { KeptBeforePrefix(rows, n - 1, m, p); }
  }

  lemma {:induction false} NumberedFilter(rows: seq<Row>, p: Row -> bool)
    ensures Numbered(Filter(rows, p)) == Map(Filter(Numbered(rows), (x: Item) => p(RowOf(x))), Renumber(rows, p))
    ensures |Filter(rows, p)| == KeptBefore(rows, |rows|, p)
  {
    var q := (x: Item) => p(RowOf(x));
    if rows != [] {
      var n := |rows| - 1;
      var rows', last := rows[..n], rows[n];
      NumberedFilter(rows', p);
      var items := Numbered(rows);
      assert items[..n] == Numbered(rows');
      assert RowOf(items[n]) == last;
      var kept := Filter(Numbered(rows'), q);
      KeptBeforePrefix(rows, n, n, p);
      assert Filter(rows, p) == if p(last) then Filter(rows', p) + [last] else Filter(rows', p);
      assert Filter(items, q) == if p(last) then kept + [items[n]] else kept;
      hide Filter;
      SameRenumbering(rows, n, p);
      if p(last) {
        NumberedLast(Filter(rows', p), last);
        assert Renumber(rows, p)(items[n]) == MakeItem(last, |Filter(rows', p)|);
        assert Map(kept + [items[n]], Renumber(rows, p)) == Map(kept, Renumber(rows, p)) + [Renumber(rows, p)(items[n])];
      }
    }
  }

  lemma NumberedLast(rows: seq<Row>, last: Row)
    ensures Numbered(rows + [last]) == Numbered(rows) + [MakeItem(last, |rows|)]
  {
  }

  // Rows added later do not change how the earlier ones are renumbered.
  lemma SameRenumbering(rows: seq<Row>, n: nat, p: Row -> bool)
    requires n <= |rows|
    ensures var kept := Filter(Numbered(rows[..n]), (x: Item) => p(RowOf(x)));
      Map(kept, Renumber(rows[..n], p)) == Map(kept, Renumber(rows, p))
  {
    hide Filter;
    var kept := Filter(Numbered(rows[..n]), (x: Item) => p(RowOf(x)));
    forall i | 0 <= i < |kept| ensures Renumber(rows[..n], p)(kept[i]) == Renumber(rows, p)(kept[i]) {
      FilterMembers(Numbered(rows[..n]), (x: Item) => p(RowOf(x)));
      assert kept[i] in kept;
      assert kept[i] in Numbered(rows[..n]);
      KeptBeforePrefix(rows, kept[i].seqNo, n, p);
    }
  }

  function RowsOf(items: seq<Item>): (rows: seq<Row>)
    ensures |rows| == |items|
  {
    Map(items, RowOf)
  }

  lemma RenumberKeepsOrder(rows: seq<Row>, p: Row -> bool, desc: bool, i: nat, j: nat)
    requires i < |rows| && j < |rows| && p(rows[i]) && p(rows[j])
    ensures var x, y, f := MakeItem(rows[i], i), MakeItem(rows[j], j), Renumber(rows, p);
      Before(desc)(x, y) <==> Before(desc)(f(x), f(y))
  {
    if i < j { KeptBeforeMono(rows, i, j, p); }
    if j < i { KeptBeforeMono(rows, j, i, p); }
  }

  lemma NumberedMember(rows: seq<Row>, x: Item) returns (i: nat)
    requires x in Numbered(rows)
    ensures i < |rows| && x == MakeItem(rows[i], i) && RowOf(x) == rows[i]
  {
    i :| 0 <= i < |rows| && Numbered(rows)[i] == x;
  }

  lemma RenumberPreserves(rows: seq<Row>, p: Row -> bool, desc: bool)
    ensures OrderPreserved(Filter(Numbered(rows), (x: Item) => p(RowOf(x))), Renumber(rows, p), Before(desc), Before(desc))
  {
    var kept := Filter(Numbered(rows), (x: Item) => p(RowOf(x)));
    FilterMembers(Numbered(rows), (x: Item) => p(RowOf(x)));
    forall x, y | x in kept && y in kept
      ensures Before(desc)(x, y) <==> Before(desc)(Renumber(rows, p)(x), Renumber(rows, p)(y))
    {
      var i := NumberedMember(rows, x);
      var j := NumberedMember(rows, y);
      RenumberKeepsOrder(rows, p, desc, i, j);
    }
  }

  // The first n rows of the kept scan are the first n kept rows of the full
  // scan, although the kept scan numbers its rows afresh.
  lemma FilteredTopN(rows: seq<Row>, p: Row -> bool, n: nat, desc: bool)
    ensures RowsOf(TopN(Numbered(Filter(rows, p)), n, Before(desc)))
         == RowsOf(TopN(Filter(Numbered(rows), (x: Item) => p(RowOf(x))), n, Before(desc)))
  {
    var kept := Filter(Numbered(rows), (x: Item) => p(RowOf(x)));
    var f := Renumber(rows, p);
    NumberedFilter(rows, p);
    RenumberPreserves(rows, p, desc);
    SortMap(kept, f, Before(desc), Before(desc));
    RenumberKeepsRows(Sort(kept, Before(desc)), rows, p);
    var a := Sort(kept, Before(desc));
    assert RowsOf(Take(Map(a, f), n)) == Take(RowsOf(Map(a, f)), n);
    assert RowsOf(Take(a, n)) == Take(RowsOf(a), n);
  }

  lemma RenumberKeepsRows(items: seq<Item>, rows: seq<Row>, p: Row -> bool)
    ensures RowsOf(Map(items, Renumber(rows, p))) == RowsOf(items)
  {
  }
}
