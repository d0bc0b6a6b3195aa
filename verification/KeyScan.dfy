// The key column of a scan: segments of pages, the deletion vector of each
// segment, and the rows a full or a pruned scan delivers, in scan order.
module KeyScan {
  import opened Options
  import opened Sorting
  import opened SortOrder

  // min and max are the stored page statistics.
  datatype KeyPage = KeyPage(rowStart: nat, cells: seq<Cell>, min: int, max: int) {
    predicate AllValid() {
      forall i :: 0 <= i < |cells| ==> cells[i].Val?
    }
    // What the writer stores for a page without nulls.
    ghost predicate Covered() {
      forall i :: 0 <= i < |cells| && cells[i].Val? ==> min <= cells[i].v <= max
    }
  }

  // dv, when present, holds one bit for each row of the segment: false means deleted.
  datatype KeySegment = KeySegment(pages: seq<KeyPage>, dv: Option<seq<bool>>) {
    predicate Live(page: nat, row: nat)
      requires page < |pages|
    {
      match dv
      case None => true
      case Some(bits) => pages[page].rowStart + row < |bits| && bits[pages[page].rowStart + row]
    }
  }

  type PageMask = Option<set<(nat, nat)>>

  predicate Kept(mask: PageMask, si: nat, pi: nat) {
    mask.Some? ==> (si, pi) in mask.value
  }

  // The first r rows of a page, deleted rows skipped.
  function PageRows(segs: seq<KeySegment>, si: nat, pi: nat, r: nat): (rows: seq<Row>)
    requires si < |segs| && pi < |segs[si].pages| && r <= |segs[si].pages[pi].cells|
    ensures |rows| <= r
    ensures forall i :: 0 <= i < |rows| ==> rows[i].seg == si && rows[i].page == pi
  {
    if r == 0 then []
    else
      var before := PageRows(segs, si, pi, r - 1);
      if segs[si].Live(pi, r - 1) then before + [Row(segs[si].pages[pi].cells[r - 1], si, pi, r - 1)]
      else before
  }

  function WholePage(segs: seq<KeySegment>, si: nat, pi: nat): (rows: seq<Row>)
    requires si < |segs| && pi < |segs[si].pages|
  {
    PageRows(segs, si, pi, |segs[si].pages[pi].cells|)
  }

  // The first pi pages of a segment, skipping masked-out pages.
  function SegmentRows(segs: seq<KeySegment>, mask: PageMask, si: nat, pi: nat): (rows: seq<Row>)
    requires si < |segs| && pi <= |segs[si].pages|
  {
    if pi == 0 then []
    else if Kept(mask, si, pi - 1) then SegmentRows(segs, mask, si, pi - 1) + WholePage(segs, si, pi - 1)
    else SegmentRows(segs, mask, si, pi - 1)
  }

  // The first si segments.
  function ScanRows(segs: seq<KeySegment>, mask: PageMask, si: nat): (rows: seq<Row>)
    requires si <= |segs|
  {
    if si == 0 then []
    else ScanRows(segs, mask, si - 1) + SegmentRows(segs, mask, si - 1, |segs[si - 1].pages|)
  }

  // Every live row of the table, in scan order.
  function TableRows(segs: seq<KeySegment>): (rows: seq<Row>) {
    ScanRows(segs, None, |segs|)
  }

  // A scan under a page mask delivers exactly the rows of the kept pages.

  function OnKeptPage(mask: PageMask): Row -> bool {
    (r: Row) => Kept(mask, r.seg, r.page)
  }

  lemma {:induction false} FilterConcat<T>(a: seq<T>, b: seq<T>, p: T -> bool)
    ensures Filter(a + b, p) == Filter(a, p) + Filter(b, p)
  {
    if b == [] {
      assert a + b == a;
    } else {
      FilterConcat(a, b[..|b| - 1], p);
      assert (a + b)[..|a + b| - 1] == a + b[..|b| - 1];
    }
  }

  lemma {:induction false} FilterAllOrNone<T>(s: seq<T>, p: T -> bool, keep: bool)
    requires forall i :: 0 <= i < |s| ==> p(s[i]) == keep
    ensures Filter(s, p) == if keep then s else []
  {
    if s != [] { FilterAllOrNone(s[..|s| - 1], p, keep); }
  }

  lemma FilterGrows<T>(all0: seq<T>, more: seq<T>, p: T -> bool)
    ensures Filter(all0, p) + Filter(more, p) == Filter(all0 + more, p)
  {
    FilterConcat(all0, more, p);
  }

  lemma SegmentGrows(segs: seq<KeySegment>, mask: PageMask, si: nat, pi: nat)
    requires si < |segs| && pi < |segs[si].pages|
    ensures SegmentRows(segs, mask, si, pi + 1) == SegmentRows(segs, mask, si, pi) + Filter(WholePage(segs, si, pi), OnKeptPage(mask))
    ensures SegmentRows(segs, None, si, pi + 1) == SegmentRows(segs, None, si, pi) + WholePage(segs, si, pi)
  {
    hide Filter;
    FilterAllOrNone(WholePage(segs, si, pi), OnKeptPage(mask), Kept(mask, si, pi));
  }

  lemma {:induction false} MaskedSegment(segs: seq<KeySegment>, mask: PageMask, si: nat, pi: nat)
    requires si < |segs| && pi <= |segs[si].pages|
    ensures SegmentRows(segs, mask, si, pi) == Filter(SegmentRows(segs, None, si, pi), OnKeptPage(mask))
  {
    if pi > 0 {
      hide *;
      var kept, all, page := SegmentRows(segs, mask, si, pi - 1), SegmentRows(segs, None, si, pi - 1), WholePage(segs, si, pi - 1);
      var p := OnKeptPage(mask);
      assert kept == Filter(all, p) by { MaskedSegment(segs, mask, si, pi - 1); }
      assert Filter(all, p) + Filter(page, p) == Filter(all + page, p) by { FilterGrows(all, page, p); }
      SegmentGrows(segs, mask, si, pi - 1);
    }
  }

  lemma ScanGrows(segs: seq<KeySegment>, mask: PageMask, si: nat)
    requires si < |segs|
    ensures ScanRows(segs, mask, si + 1) == ScanRows(segs, mask, si) + SegmentRows(segs, mask, si, |segs[si].pages|)
  {
  }

  lemma {:induction false} MaskedScan(segs: seq<KeySegment>, mask: PageMask, si: nat)
    requires si <= |segs|
    ensures ScanRows(segs, mask, si) == Filter(ScanRows(segs, None, si), OnKeptPage(mask))
  {
    if si > 0 {
      hide *;
      var n := |segs[si - 1].pages|;
      var all, more, p := ScanRows(segs, None, si - 1), SegmentRows(segs, None, si - 1, n), OnKeptPage(mask);
      assert ScanRows(segs, mask, si - 1) == Filter(all, p) by { MaskedScan(segs, mask, si - 1); }
      assert SegmentRows(segs, mask, si - 1, n) == Filter(more, p) by { MaskedSegment(segs, mask, si - 1, n); }
      assert Filter(all, p) + Filter(more, p) == Filter(all + more, p) by { FilterGrows(all, more, p); }
      ScanGrows(segs, mask, si - 1);
      ScanGrows(segs, None, si - 1);
    }
  }

  // ----- which rows are delivered, and in what order -----

  // A cell of the table.
  ghost predicate RowInTable(segs: seq<KeySegment>, r: Row) {
    && r.seg < |segs| && r.page < |segs[r.seg].pages|
    && r.row < |segs[r.seg].pages[r.page].cells|
    && r.cell == segs[r.seg].pages[r.page].cells[r.row]
  }

  // A cell of the table whose bit in the deletion vector of its segment is set;
  // the vector counts rows from the start of the segment.
  ghost predicate Delivered(segs: seq<KeySegment>, r: Row) {
    RowInTable(segs, r) &&
    match segs[r.seg].dv
    case None => true
    case Some(bits) =>
      var at := segs[r.seg].pages[r.page].rowStart + r.row;
      at < |bits| && bits[at]
  }

  ghost predicate InScanOrder(rows: seq<Row>) {
    forall i, j :: 0 <= i < j < |rows| ==> ScannedBefore(rows[i], rows[j])
  }

  lemma InOrderConcat(a: seq<Row>, b: seq<Row>)
    requires InScanOrder(a) && InScanOrder(b) && forall x, y :: x in a && y in b ==> ScannedBefore(x, y)
    ensures InScanOrder(a + b)
  {
    hide ScannedBefore;
    forall i, j | 0 <= i < j < |a + b| ensures ScannedBefore((a + b)[i], (a + b)[j]) {
      assert i < |a| ==> a[i] in a;
      assert j >= |a| ==> b[j - |a|] in b;
    }
  }

  lemma {:induction false} PageRowsAre(segs: seq<KeySegment>, si: nat, pi: nat, r: nat)
    requires si < |segs| && pi < |segs[si].pages| && r <= |segs[si].pages[pi].cells|
    ensures forall x :: x in PageRows(segs, si, pi, r) <==> Delivered(segs, x) && x.seg == si && x.page == pi && x.row < r
    ensures InScanOrder(PageRows(segs, si, pi, r))
  {
    if r > 0 {
      PageRowsAre(segs, si, pi, r - 1);
      var front := PageRows(segs, si, pi, r - 1);
      forall i | 0 <= i < |front| ensures front[i].row < r - 1 { assert front[i] in front; }
    }
  }

  lemma {:induction false} SegmentRowsAre(segs: seq<KeySegment>, si: nat, pi: nat)
    requires si < |segs| && pi <= |segs[si].pages|
    ensures forall x :: x in SegmentRows(segs, None, si, pi) <==> Delivered(segs, x) && x.seg == si && x.page < pi
    ensures InScanOrder(SegmentRows(segs, None, si, pi))
  {
    hide Delivered;
    assert forall x :: Delivered(segs, x) ==> RowInTable(segs, x) by { DeliveredAreRows(segs); }
    if pi > 0 {
      SegmentRowsAre(segs, si, pi - 1);
      PageRowsAre(segs, si, pi - 1, |segs[si].pages[pi - 1].cells|);
      InOrderConcat(SegmentRows(segs, None, si, pi - 1), WholePage(segs, si, pi - 1));
    }
  }

  lemma DeliveredAreRows(segs: seq<KeySegment>)
    ensures forall x :: Delivered(segs, x) ==> RowInTable(segs, x)
  {
  }

  lemma {:induction false} ScanRowsAre(segs: seq<KeySegment>, si: nat)
    requires si <= |segs|
    ensures forall x :: x in ScanRows(segs, None, si) <==> Delivered(segs, x) && x.seg < si
    ensures InScanOrder(ScanRows(segs, None, si))
  {
    hide Delivered;
    assert forall x :: Delivered(segs, x) ==> RowInTable(segs, x) by { DeliveredAreRows(segs); }
    if si > 0 {
      ScanRowsAre(segs, si - 1);
      SegmentRowsAre(segs, si - 1, |segs[si - 1].pages|);
      InOrderConcat(ScanRows(segs, None, si - 1), SegmentRows(segs, None, si - 1, |segs[si - 1].pages|));
    }
  }

  // The rows of the table are its cells that are not deleted, by segment, page
  // and row, each once.
  lemma TableRowsAre(segs: seq<KeySegment>)
    ensures forall x :: x in TableRows(segs) <==> Delivered(segs, x)
    ensures InScanOrder(TableRows(segs)) && Apart(TableRows(segs))
  {
    hide Delivered;
    assert forall x :: Delivered(segs, x) ==> RowInTable(segs, x) by { DeliveredAreRows(segs); }
    ScanRowsAre(segs, |segs|);
  }

  ghost predicate Apart(rows: seq<Row>) {
    forall i, j :: 0 <= i < j < |rows| ==> rows[i] != rows[j]
  }
}
