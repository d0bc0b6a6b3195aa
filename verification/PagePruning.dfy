// Choosing the pages a top-K scan must read from the page statistics alone.
module PagePruning {
  import opened Options
  import opened Sorting
  import opened SortOrder
  import opened KeyScan

  const INT64_MAX: int := 0x7fff_ffff_ffff_ffff

  // a + b in int64 arithmetic, for a, b >= 0.
  function AddInt64(a: nat, b: nat): (s: int) {
    if a + b > INT64_MAX then a + b - 0x1_0000_0000_0000_0000 else a + b
  }

  datatype PageRef = PageRef(seg: nat, page: nat, rows: nat, min: int, max: int)

  function RefOf(segs: seq<KeySegment>, si: nat, pi: nat): PageRef
    requires si < |segs| && pi < |segs[si].pages|
  {
    var p := segs[si].pages[pi];
    PageRef(si, pi, |p.cells|, p.min, p.max)
  }

  function SegmentRefs(segs: seq<KeySegment>, si: nat, pi: nat): (refs: seq<PageRef>)
    requires si < |segs| && pi <= |segs[si].pages|
  {
    if pi == 0 then [] else SegmentRefs(segs, si, pi - 1) + [RefOf(segs, si, pi - 1)]
  }

  function Refs(segs: seq<KeySegment>, si: nat): (refs: seq<PageRef>)
    requires si <= |segs|
  {
    if si == 0 then [] else Refs(segs, si - 1) + SegmentRefs(segs, si - 1, |segs[si - 1].pages|)
  }

  // Every row of p sorts strictly before every row of r, by the statistics.
  predicate Dominates(p: PageRef, r: PageRef, desc: bool) {
    if desc then p.min > r.max else p.max < r.min
  }

  function DominatingRows(refs: seq<PageRef>, r: PageRef, desc: bool): (n: nat) {
    if refs == [] then 0
    else
      var last := refs[|refs| - 1];
      DominatingRows(refs[..|refs| - 1], r, desc) + (if Dominates(last, r, desc) then last.rows else 0)
  }

  function TotalRows(refs: seq<PageRef>): (n: nat) {
    if refs == [] then 0 else TotalRows(refs[..|refs| - 1]) + refs[|refs| - 1].rows
  }

  // A segment the pruner may reason about: no deletions, no nulls, no empty page.
  predicate Prunable(seg: KeySegment) {
    && seg.dv.None?
    && forall pi :: 0 <= pi < |seg.pages| ==> seg.pages[pi].AllValid() && |seg.pages[pi].cells| > 0
  }

  // ----- sums over an arbitrary rearrangement -----

  lemma {:induction false} DominatingConcat(a: seq<PageRef>, b: seq<PageRef>, r: PageRef, desc: bool)
    ensures DominatingRows(a + b, r, desc) == DominatingRows(a, r, desc) + DominatingRows(b, r, desc)
  {
    if b == [] {
      assert a + b == a;
    } else {
      DominatingConcat(a, b[..|b| - 1], r, desc);
      assert (a + b)[..|a + b| - 1] == a + b[..|b| - 1];
    }
  }

  lemma {:induction false} DominatingPermutes(a: seq<PageRef>, b: seq<PageRef>, r: PageRef, desc: bool)
    requires multiset(a) == multiset(b)
    ensures DominatingRows(a, r, desc) == DominatingRows(b, r, desc)
  {
    assert |a| == |multiset(a)| == |multiset(b)| == |b|;
    if a != [] {
      var x := a[|a| - 1];
      MultisetMembers(a, b);
      assert x in b;
      var k :| 0 <= k < |b| && b[k] == x;
      var b' := b[..k] + b[k + 1..];
      assert b == b[..k] + [x] + b[k + 1..];
      DropLast(a);
      assert multiset(b') == multiset(b) - multiset{x};
      DominatingPermutes(a[..|a| - 1], b', r, desc);
      DominatingConcat(b[..k] + [x], b[k + 1..], r, desc);
      DominatingConcat(b[..k], [x], r, desc);
      DominatingConcat(b[..k], b[k + 1..], r, desc);
      assert DominatingRows([x], r, desc) == if Dominates(x, r, desc) then x.rows else 0 by {
        assert [x][..0] == [];
      }
    }
  }

  // ----- the selection -----

  // Sorted by min for a descending scan, by max for an ascending one.
  function ByBound(desc: bool): (PageRef, PageRef) -> bool {
    (a: PageRef, b: PageRef) => if desc then a.min < b.min else a.max < b.max
  }

  // Some sort by the bound; ties may come out in any order.
  method SortRefs(refs: seq<PageRef>, desc: bool) returns (sorted: seq<PageRef>)
    ensures multiset(sorted) == multiset(refs) && |sorted| == |refs|
    ensures Sorted(sorted, ByBound(desc))
  {
    sorted := Sort(refs, ByBound(desc));
    SortMultiset(refs, ByBound(desc));
    SortSorts(refs, ByBound(desc));
  }

  // The index the cumulative counts are read at: past it every page dominates r
  // (descending), or every page before it does (ascending).
  predicate PastBound(p: PageRef, r: PageRef, desc: bool) {
    if desc then p.min > r.max else p.max >= r.min
  }

  method SearchBound(sorted: seq<PageRef>, r: PageRef, desc: bool) returns (idx: nat)
    requires Sorted(sorted, ByBound(desc))
    ensures idx <= |sorted|
    ensures forall i :: 0 <= i < idx ==> !PastBound(sorted[i], r, desc)
    ensures forall i :: idx <= i < |sorted| ==> PastBound(sorted[i], r, desc)
  {
    idx := 0;
    var hi := |sorted|;
    while idx < hi
      invariant 0 <= idx <= hi <= |sorted|
      invariant forall i :: 0 <= i < idx ==> !PastBound(sorted[i], r, desc)
      invariant forall i :: hi <= i < |sorted| ==> PastBound(sorted[i], r, desc)
    {
      var mid := (idx + hi) / 2;
      if !PastBound(sorted[mid], r, desc) {
        forall i | 0 <= i <= mid ensures !PastBound(sorted[i], r, desc) {
          assert i < mid ==> !ByBound(desc)(sorted[mid], sorted[i]);
        }
        idx := mid + 1;
      } else {
        forall i | mid <= i < |sorted| ensures PastBound(sorted[i], r, desc) {
          assert i > mid ==> !ByBound(desc)(sorted[i], sorted[mid]);
        }
        hi := mid;
      }
    }
  }

  // cum[i] counts the rows from i on (descending) or before i (ascending).
  method CumulativeRows(sorted: seq<PageRef>, desc: bool) returns (cum: array<nat>)
    ensures cum.Length == |sorted| + 1
    ensures forall i :: 0 <= i <= |sorted| ==> cum[i] == TotalRows(if desc then sorted[i..] else sorted[..i])
  {
    var n := |sorted|;
    cum := new nat[n + 1](_ => 0);
    if desc {
      var i := n;
      while i > 0
        invariant 0 <= i <= n
        invariant forall j :: i <= j <= n ==> cum[j] == TotalRows(sorted[j..])
      {
        i := i - 1;
        cum[i] := cum[i + 1] + sorted[i].rows;
        TotalFront(sorted[i..]);
        assert sorted[i..][1..] == sorted[i + 1..];
      }
    } else {
      for i := 0 to n
        invariant forall j :: 0 <= j <= i ==> cum[j] == TotalRows(sorted[..j])
      {
        cum[i + 1] := cum[i] + sorted[i].rows;
        assert sorted[..i + 1][..i] == sorted[..i];
      }
    }
  }

  lemma {:induction false} TotalFront(s: seq<PageRef>)
    requires s != []
    ensures TotalRows(s) == s[0].rows + TotalRows(s[1..])
  {
    if |s| > 1 {
      TotalFront(s[..|s| - 1]);
      assert s[..|s| - 1][1..] == s[1..][..|s| - 2];
    } else {
      assert s[..0] == [] && s[1..] == [];
    }
  }

  lemma {:induction false} DominatingAllOrNone(s: seq<PageRef>, r: PageRef, desc: bool, all: bool)
    requires forall i :: 0 <= i < |s| ==> Dominates(s[i], r, desc) == all
    ensures DominatingRows(s, r, desc) == if all then TotalRows(s) else 0
  {
    if s != [] { DominatingAllOrNone(s[..|s| - 1], r, desc, all); }
  }

  lemma CumulativeIsDominating(sorted: seq<PageRef>, r: PageRef, desc: bool, idx: nat)
    requires idx <= |sorted|
    requires forall i :: 0 <= i < idx ==> !PastBound(sorted[i], r, desc)
    requires forall i :: idx <= i < |sorted| ==> PastBound(sorted[i], r, desc)
    ensures DominatingRows(sorted, r, desc) == TotalRows(if desc then sorted[idx..] else sorted[..idx])
  {
    assert sorted == sorted[..idx] + sorted[idx..];
    DominatingConcat(sorted[..idx], sorted[idx..], r, desc);
    DominatingAllOrNone(sorted[..idx], r, desc, !desc);
    DominatingAllOrNone(sorted[idx..], r, desc, desc);
  }

  // One entry for each page, or None when the statistics do not allow a decision.
  lemma TotalStep(refs: seq<PageRef>, r: PageRef)
    ensures TotalRows(refs + [r]) == TotalRows(refs) + r.rows
  {
    assert (refs + [r])[..|refs|] == refs;
  }

  lemma SegmentRefsStep(segs: seq<KeySegment>, si: nat, pi: nat)
    requires si < |segs| && pi < |segs[si].pages|
    ensures Refs(segs, si) + SegmentRefs(segs, si, pi + 1) == Refs(segs, si) + SegmentRefs(segs, si, pi) + [RefOf(segs, si, pi)]
  {
    hide Refs, RefOf;
  }

  method CollectRefs(segs: seq<KeySegment>) returns (out: Option<seq<PageRef>>, total: nat)
    ensures out.Some? ==> out.value == Refs(segs, |segs|) && total == TotalRows(out.value)
    ensures out.Some? <==> forall si :: 0 <= si < |segs| ==> Prunable(segs[si])
  {
    var refs: seq<PageRef> := [];
    total := 0;
    for si := 0 to |segs|
      invariant refs == Refs(segs, si) && total == TotalRows(refs)
      invariant forall s :: 0 <= s < si ==> Prunable(segs[s])
    {
      if segs[si].dv.Some? {
        return None, 0;
      }
      for pi := 0 to |segs[si].pages|
        invariant refs == Refs(segs, si) + SegmentRefs(segs, si, pi) && total == TotalRows(refs)
        invariant forall p :: 0 <= p < pi ==> segs[si].pages[p].AllValid() && |segs[si].pages[p].cells| > 0
      {
        if !segs[si].pages[pi].AllValid() || |segs[si].pages[pi].cells| == 0 {
          assert !Prunable(segs[si]);
          return None, 0;
        }
        var r := RefOf(segs, si, pi);
        TotalStep(refs, r);
        SegmentRefsStep(segs, si, pi);
        refs := refs + [r];
        total := total + r.rows;
      }
    }
    return Some(refs), total;
  }

  // Keeps the pages that fewer than `need` rows dominate.
  method MarkPages(refs: seq<PageRef>, need: nat, desc: bool) returns (pages: set<(nat, nat)>, pruned: bool)
    requires forall i, j :: 0 <= i < j < |refs| ==> Follows(refs[i], refs[j])
    ensures forall j :: 0 <= j < |refs| ==>
      ((refs[j].seg, refs[j].page) in pages <==> DominatingRows(refs, refs[j], desc) < need)
    ensures pruned <==> exists j :: 0 <= j < |refs| && DominatingRows(refs, refs[j], desc) >= need
  {
    var sorted := SortRefs(refs, desc);
    var cum := CumulativeRows(sorted, desc);
    pages, pruned := {}, false;
    for i := 0 to |refs|
      modifies {}
      invariant forall j :: 0 <= j < i ==>
        ((refs[j].seg, refs[j].page) in pages <==> DominatingRows(refs, refs[j], desc) < need)
      invariant forall j :: i <= j < |refs| ==> (refs[j].seg, refs[j].page) !in pages
      invariant pruned <==> exists j :: 0 <= j < i && DominatingRows(refs, refs[j], desc) >= need
    {
      var r := refs[i];
      var idx := SearchBound(sorted, r, desc);
      CumulativeIsDominating(sorted, r, desc, idx);
      DominatingPermutes(refs, sorted, r, desc);
      var betterRows := cum[idx];
      if betterRows >= need {
        pruned := true;
      } else {
        forall j | 0 <= j < |refs| && j != i ensures (refs[j].seg, refs[j].page) != (r.seg, r.page) {
          assert if j < i then Follows(refs[j], r) else Follows(r, refs[j]);
        }
        pages := pages + {(r.seg, r.page)};
      }
    }
  }

  // The pages a scan for the first K rows after Offset must read; None means no
  // page could be ruled out (or the statistics do not allow a decision).
  method SelectTopKPages(segs: seq<KeySegment>, desc: bool, k: int, offset: int) returns (selected: PageMask)
    requires -INT64_MAX - 1 <= k <= INT64_MAX && -INT64_MAX - 1 <= offset <= INT64_MAX
    ensures selected.Some? ==> k > 0 && offset >= 0 && k + offset <= INT64_MAX
    ensures selected.Some? ==> SafeMask(segs, selected, k + offset, desc)
    ensures selected.Some? <==>
      && k > 0 && offset >= 0 && k + offset <= INT64_MAX && (forall si :: 0 <= si < |segs| ==> Prunable(segs[si]))
      && TotalRows(Refs(segs, |segs|)) > k + offset
      && exists j :: 0 <= j < |Refs(segs, |segs|)| && DominatingRows(Refs(segs, |segs|), Refs(segs, |segs|)[j], desc) >= k + offset
  {
    if k <= 0 || offset < 0 {
      return None;
    }
    var need := AddInt64(k, offset);
    if need <= 0 {
      return None;
    }
    var out, total := CollectRefs(segs);
    if out.None? {
      return None;
    }
    var refs := out.value;
    if total <= need {
      return None;
    }
    RefsAreDistinct(segs, |segs|);
    var pages, pruned := MarkPages(refs, need, desc);
    if !pruned {
      return None;
    }
    forall si, pi | 0 <= si < |segs| && 0 <= pi < |segs[si].pages|
      ensures (si, pi) in pages <==> DominatingRows(refs, RefOf(segs, si, pi), desc) < need
    {
      var j := RefIsListed(segs, |segs|, si, pi);
    }
    return Some(pages);
  }

  // The list holds one entry for each page, in (segment, page) order.
  predicate Follows(a: PageRef, b: PageRef) {
    a.seg < b.seg || (a.seg == b.seg && a.page < b.page)
  }

  lemma {:induction false} SegmentRefsAre(segs: seq<KeySegment>, si: nat, pi: nat)
    requires si < |segs| && pi <= |segs[si].pages|
    ensures |SegmentRefs(segs, si, pi)| == pi
    ensures forall j :: 0 <= j < pi ==> SegmentRefs(segs, si, pi)[j] == RefOf(segs, si, j)
  {
    if pi > 0 { SegmentRefsAre(segs, si, pi - 1); }
  }

  lemma {:induction false} RefsAreDistinct(segs: seq<KeySegment>, si: nat)
    requires si <= |segs|
    ensures forall j :: 0 <= j < |Refs(segs, si)| ==> Refs(segs, si)[j].seg < si
    ensures forall i, j :: 0 <= i < j < |Refs(segs, si)| ==> Follows(Refs(segs, si)[i], Refs(segs, si)[j])
  {
    if si > 0 {
      RefsAreDistinct(segs, si - 1);
      SegmentRefsAre(segs, si - 1, |segs[si - 1].pages|);
    }
  }

  lemma {:induction false} RefIsListed(segs: seq<KeySegment>, n: nat, si: nat, pi: nat) returns (j: nat)
    requires si < n <= |segs| && pi < |segs[si].pages|
    ensures j < |Refs(segs, n)| && Refs(segs, n)[j] == RefOf(segs, si, pi)
    decreases n
  {
    SegmentRefsAre(segs, n - 1, |segs[n - 1].pages|);
    if si == n - 1 {
      j := |Refs(segs, n - 1)| + pi;
    } else {
      j := RefIsListed(segs, n - 1, si, pi);
    }
  }

  // ----- a pruned page cannot contribute -----

  ghost predicate StatsCover(segs: seq<KeySegment>) {
    forall si, pi :: 0 <= si < |segs| && 0 <= pi < |segs[si].pages| ==> segs[si].pages[pi].Covered()
  }

  function CountRowsBefore(rows: seq<Row>, x: Item, desc: bool): (n: nat) {
    if rows == [] then 0
    else
      var last := MakeItem(rows[|rows| - 1], x.seqNo);
      CountRowsBefore(rows[..|rows| - 1], x, desc) + (if Before(desc)(last, x) then 1 else 0)
  }

  lemma {:induction false} CountConcat(a: seq<Row>, b: seq<Row>, x: Item, desc: bool)
    ensures CountRowsBefore(a + b, x, desc) == CountRowsBefore(a, x, desc) + CountRowsBefore(b, x, desc)
  {
    if b == [] {
      assert a + b == a;
    } else {
      CountConcat(a, b[..|b| - 1], x, desc);
      assert (a + b)[..|a + b| - 1] == a + b[..|b| - 1];
    }
  }

  // Rows ahead of x by key alone are ahead of it whatever their arrival number.
  lemma {:induction false} CountNumbered(rows: seq<Row>, x: Item, desc: bool)
    ensures CountBefore(Numbered(rows), x, Before(desc)) >= CountRowsBefore(rows, x, desc)
  {
    if rows != [] {
      var n := |rows| - 1;
      CountNumbered(rows[..n], x, desc);
      assert Numbered(rows)[..n] == Numbered(rows[..n]);
    }
  }

  lemma {:induction false} DominatingPageCounts(segs: seq<KeySegment>, si: nat, pi: nat, r: nat, x: Item, desc: bool)
    requires si < |segs| && pi < |segs[si].pages| && r <= |segs[si].pages[pi].cells|
    requires Prunable(segs[si]) && segs[si].pages[pi].Covered()
    requires !x.isNull && (if desc then segs[si].pages[pi].min > x.key else segs[si].pages[pi].max < x.key)
    ensures CountRowsBefore(PageRows(segs, si, pi, r), x, desc) == r
  {
    if r > 0 {
      DominatingPageCounts(segs, si, pi, r - 1, x, desc);
      var rows := PageRows(segs, si, pi, r);
      assert rows[..|rows| - 1] == PageRows(segs, si, pi, r - 1);
      assert segs[si].pages[pi].cells[r - 1].Val?;
    }
  }

  lemma DominatingLast(refs: seq<PageRef>, last: PageRef, r: PageRef, desc: bool)
    ensures DominatingRows(refs + [last], r, desc)
         == DominatingRows(refs, r, desc) + (if Dominates(last, r, desc) then last.rows else 0)
  {
    assert (refs + [last])[..|refs|] == refs;
  }

  lemma CountsStep(segs: seq<KeySegment>, si: nat, pi: nat, page: seq<Row>, x: Item, desc: bool)
    requires si < |segs| && 0 < pi <= |segs[si].pages| && page == WholePage(segs, si, pi - 1)
    ensures CountRowsBefore(SegmentRows(segs, None, si, pi), x, desc)
      == CountRowsBefore(SegmentRows(segs, None, si, pi - 1), x, desc) + CountRowsBefore(page, x, desc)
  {
    hide CountRowsBefore, WholePage;
    CountConcat(SegmentRows(segs, None, si, pi - 1), page, x, desc);
  }

  lemma DominatingStep(segs: seq<KeySegment>, si: nat, pi: nat, ref: PageRef, r: PageRef, desc: bool)
    requires si < |segs| && 0 < pi <= |segs[si].pages| && ref == RefOf(segs, si, pi - 1)
    ensures DominatingRows(SegmentRefs(segs, si, pi), r, desc)
      == DominatingRows(SegmentRefs(segs, si, pi - 1), r, desc) + (if Dominates(ref, r, desc) then ref.rows else 0)
  {
    hide DominatingRows, RefOf, Dominates;
    DominatingLast(SegmentRefs(segs, si, pi - 1), ref, r, desc);
  }

  lemma NothingDominates(r: PageRef, desc: bool)
    ensures DominatingRows([], r, desc) == 0
  {
  }

  lemma DominatingWhole(segs: seq<KeySegment>, si: nat, pi: nat, r: PageRef, x: Item, desc: bool)
    requires si < |segs| && pi < |segs[si].pages| && Prunable(segs[si]) && StatsCover(segs)
    requires !x.isNull && r.min <= x.key <= r.max && Dominates(RefOf(segs, si, pi), r, desc)
    ensures CountRowsBefore(WholePage(segs, si, pi), x, desc) == RefOf(segs, si, pi).rows
  {
    hide CountRowsBefore;
    DominatingPageCounts(segs, si, pi, RefOf(segs, si, pi).rows, x, desc);
  }

  lemma {:induction false} SegmentCounts(segs: seq<KeySegment>, si: nat, pi: nat, r: PageRef, x: Item, desc: bool)
    requires si < |segs| && pi <= |segs[si].pages|
    requires Prunable(segs[si]) && StatsCover(segs)
    requires !x.isNull && r.min <= x.key <= r.max
    ensures CountRowsBefore(SegmentRows(segs, None, si, pi), x, desc) >= DominatingRows(SegmentRefs(segs, si, pi), r, desc)
  {
    if pi > 0 {
      hide *;
      SegmentCounts(segs, si, pi - 1, r, x, desc);
      var page := WholePage(segs, si, pi - 1);
      var ref := RefOf(segs, si, pi - 1);
      if Dominates(ref, r, desc) { DominatingWhole(segs, si, pi - 1, r, x, desc); }
      CountsStep(segs, si, pi, page, x, desc);
      DominatingStep(segs, si, pi, ref, r, desc);
    } else {
      NothingDominates(r, desc);
    }
  }

  lemma {:induction false} ScanCounts(segs: seq<KeySegment>, n: nat, r: PageRef, x: Item, desc: bool)
    requires n <= |segs|
    requires (forall si :: 0 <= si < n ==> Prunable(segs[si])) && StatsCover(segs)
    requires !x.isNull && r.min <= x.key <= r.max
    ensures CountRowsBefore(ScanRows(segs, None, n), x, desc) >= DominatingRows(Refs(segs, n), r, desc)
  {
    if n > 0 {
      hide CountRowsBefore, DominatingRows, Before, SegmentRows, SegmentRefs;
      ScanCounts(segs, n - 1, r, x, desc);
      SegmentCounts(segs, n - 1, |segs[n - 1].pages|, r, x, desc);
      CountConcat(ScanRows(segs, None, n - 1), SegmentRows(segs, None, n - 1, |segs[n - 1].pages|), x, desc);
      DominatingConcat(Refs(segs, n - 1), SegmentRefs(segs, n - 1, |segs[n - 1].pages|), r, desc);
    }
  }

  // A mask that drops only pages dominated by `need` rows.
  ghost predicate SafeMask(segs: seq<KeySegment>, mask: PageMask, need: nat, desc: bool) {
    mask.Some? ==>
      && (forall si :: 0 <= si < |segs| ==> Prunable(segs[si]))
      && forall si, pi :: 0 <= si < |segs| && 0 <= pi < |segs[si].pages| ==>
           ((si, pi) in mask.value <==> DominatingRows(Refs(segs, |segs|), RefOf(segs, si, pi), desc) < need)
  }

  lemma PrunedRowHasEnoughBefore(segs: seq<KeySegment>, mask: PageMask, need: nat, desc: bool, x: Item)
    requires SafeMask(segs, mask, need, desc) && StatsCover(segs)
    requires x in Numbered(TableRows(segs)) && !OnKeptPage(mask)(RowOf(x))
    ensures CountBefore(Numbered(TableRows(segs)), x, Before(desc)) >= need
  {
    var i := NumberedMember(TableRows(segs), x);
    TableRowsAre(segs);
    var row := RowOf(x);
    assert row in TableRows(segs);
    assert RowInTable(segs, row);
    var page := segs[row.seg].pages[row.page];
    assert page.cells[row.row].Val? && page.Covered();
    ScanCounts(segs, |segs|, RefOf(segs, row.seg, row.page), x, desc);
    CountNumbered(TableRows(segs), x, desc);
  }

  // Pruning is exact: scanning only the kept pages yields the same first `need`
  // rows, ties included, as scanning the whole table.
  lemma PruningIsExact(segs: seq<KeySegment>, mask: PageMask, need: nat, desc: bool)
    requires SafeMask(segs, mask, need, desc) && StatsCover(segs)
    ensures RowsOf(TopN(Numbered(ScanRows(segs, mask, |segs|)), need, Before(desc)))
         == RowsOf(TopN(Numbered(TableRows(segs)), need, Before(desc)))
  {
    var rows := TableRows(segs);
    var p := OnKeptPage(mask);
    var q := (x: Item) => p(RowOf(x));
    MaskedScan(segs, mask, |segs|);
    FilteredTopN(rows, p, need, desc);
    BeforeIsWeakOrder(desc);
    forall x | x in Numbered(rows) && !q(x) ensures CountBefore(Numbered(rows), x, Before(desc)) >= need {
      PrunedRowHasEnoughBefore(segs, mask, need, desc, x);
    }
    PruneKeepsTopN(Numbered(rows), q, need, Before(desc));
  }
}
