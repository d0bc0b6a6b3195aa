// LIMIT and OFFSET over a stream of batches with packed selections.
module LimitOperator {
  import opened Selection
  import opened Sorting

  // sel is null when every row is visible.
  datatype Batch<T> = Batch(data: seq<T>, sel: SelectionMask?)

  ghost predicate ValidBatch<T>(b: Batch<T>)
    reads b.sel
  {
    b.sel != null ==> b.sel.Valid() && b.sel.rows == |b.data|
  }

  function Chosen<T>(data: seq<T>, mask: seq<bool>): (rows: seq<T>)
    requires |mask| == |data|
  {
    if data == [] then []
    else
      var n := |data| - 1;
      Chosen(data[..n], mask[..n]) + if mask[n] then [data[n]] else []
  }

  ghost function Visible<T>(b: Batch<T>): seq<T>
    requires ValidBatch(b)
    reads b.sel
  {
    if b.sel == null then b.data else Chosen(b.data, b.sel.Mask())
  }

  ghost predicate ValidBatches<T>(bs: seq<Batch<T>>)
    reads set i | 0 <= i < |bs| :: bs[i].sel
  {
    forall i :: 0 <= i < |bs| ==> ValidBatch(bs[i])
  }

  ghost function AllVisible<T>(bs: seq<Batch<T>>): seq<T>
    requires ValidBatches(bs)
    reads set i | 0 <= i < |bs| :: bs[i].sel
  {
    if bs == [] then [] else Visible(bs[0]) + AllVisible(bs[1..])
  }

  // The rows a LIMIT with these settings lets through; a negative n is no limit.
  function Window<T>(rows: seq<T>, skip: int, n: int): seq<T> {
    var rest := Drop(rows, if skip > 0 then skip else 0);
    if n < 0 then rest else Take(rest, n)
  }

  // ----- facts about chosen rows -----

  lemma {:induction false} ChosenCount<T>(data: seq<T>, mask: seq<bool>)
    requires |mask| == |data|
    ensures |Chosen(data, mask)| == TrueCount(mask)
  {
    if data != [] { ChosenCount(data[..|data| - 1], mask[..|data| - 1]); }
  }

  lemma {:induction false} ChosenAll<T>(data: seq<T>, mask: seq<bool>)
    requires |mask| == |data| && Full(mask)
    ensures Chosen(data, mask) == data
  {
    if data != [] {
      var n := |data| - 1;
      ChosenAll(data[..n], mask[..n]);
      assert data == data[..n] + [data[n]];
    }
  }

  lemma {:induction false} ChosenRange<T>(data: seq<T>, mask: seq<bool>, start: nat, end: nat)
    requires |mask| == |data| && start <= end <= |data|
    requires forall i :: 0 <= i < |mask| ==> mask[i] == (start <= i < end)
    ensures Chosen(data, mask) == data[start..end]
  {
    if data != [] {
      var n := |data| - 1;
      if end == |data| {
        if start < end {
          ChosenRange(data[..n], mask[..n], start, n);
          assert data[start..end] == data[..n][start..n] + [data[n]];
        } else {
          ChosenRange(data[..n], mask[..n], n, n);
        }
      } else {
        ChosenRange(data[..n], mask[..n], start, end);
        assert data[..n][start..end] == data[start..end];
      }
    }
  }

  lemma KeptFront(bits: seq<bool>, skip: int, take: int)
    requires bits != []
    ensures Kept(bits, skip, take)[..|bits| - 1] == Kept(bits[..|bits| - 1], skip, take)
  {
    var n := |bits| - 1;
    forall i | 0 <= i < n ensures Kept(bits, skip, take)[i] == Kept(bits[..n], skip, take)[i] {
      assert bits[..n][..i] == bits[..i];
    }
  }

  lemma WindowAppend<T>(rows: seq<T>, x: T, skip: int, n: int)
    ensures var lo := if skip > 0 then skip else 0;
      Window(rows + [x], skip, n) == Window(rows, skip, n) + if lo <= |rows| && (n < 0 || |rows| < lo + n) then [x] else []
  {
    var lo := if skip > 0 then skip else 0;
    if lo <= |rows| {
      var rest := rows[lo..];
      assert Drop(rows, lo) == rest;
      assert Drop(rows + [x], lo) == rest + [x];
      if n >= 0 {
        if |rest| < n {
          assert Take(rest + [x], n) == rest + [x];
        } else {
          assert Take(rest + [x], n) == Take(rest, n);
        }
      }
    }
  }

  // Keeping the selected rows by rank is the window of the chosen rows.
  lemma {:induction false} ChosenKept<T>(data: seq<T>, mask: seq<bool>, skip: int, take: int)
    requires |mask| == |data|
    ensures Chosen(data, Kept(mask, skip, take)) == Window(Chosen(data, mask), skip, take)
  {
    hide TrueCount, Window;
    if data != [] {
      var n := |data| - 1;
      var front, kept := Chosen(data[..n], mask[..n]), Kept(mask, skip, take);
      ChosenKept(data[..n], mask[..n], skip, take);
      KeptFront(mask, skip, take);
      ChosenCount(data[..n], mask[..n]);
      assert Chosen(data, kept) == Window(front, skip, take) + if kept[n] then [data[n]] else [];
      if mask[n] {
        WindowAppend(front, data[n], skip, take);
        assert kept[n] <==> (if skip > 0 then skip else 0) <= |front| && (take < 0 || |front| < (if skip > 0 then skip else 0) + take);
      } else {
        assert Chosen(data, mask) == front;
      }
    } else {
      WindowOfNothing<T>(skip, take);
    }
  }

  lemma SameLimit<T>(rows: seq<T>, skip: int, n: int)
    ensures Window(rows, skip, if n < 0 then -1 else n) == Window(rows, skip, n)
  {
  }

  lemma WindowOfNothing<T>(skip: int, n: int)
    ensures Window<T>([], skip, n) == []
  {
  }

  // ----- the operator -----

  lemma NoBatches<T>(bs: seq<Batch<T>>)
    requires bs == []
    ensures ValidBatches(bs) && AllVisible(bs) == []
  {
  }

  class LimitOp<T> {
    const n: int
    const offset: int
    var source: seq<Batch<T>>   // the batches still to come
    var seen: nat
    var sent: nat

    ghost predicate Valid()
      reads this, set i | 0 <= i < |source| :: source[i].sel
    {
      && ValidBatches(source)
      && (n >= 0 ==> sent <= n)
      && (sent > 0 ==> seen >= offset)
    }

    // What the operator has yet to emit.
    ghost function Left(): seq<T>
      requires Valid()
      reads this, set i | 0 <= i < |source| :: source[i].sel
    {
      Window(AllVisible(source), offset - seen, if n < 0 then -1 else n - sent)
    }

    constructor Open(source: seq<Batch<T>>, n: int, offset: int)
      requires ValidBatches(source)
      ensures Valid() && this.source == source && Left() == Window(AllVisible(source), offset, n)
    {
      hide Window, AllVisible;
      this.source, this.n, this.offset := source, n, offset;
      seen, sent := 0, 0;
      new;
      SameLimit(AllVisible(source), offset, n);
    }

    predicate Done()
      reads this
    {
      n == 0 || (n > 0 && sent >= n)
    }

    // A batch in which every row is visible.
    method LimitAllRows(batch: Batch<T>) returns (out: Batch<T>, ok: bool)
      requires ValidBatch(batch) && Visible(batch) == batch.data && batch.data != []
      requires !Done() && (n >= 0 ==> sent <= n) && (sent > 0 ==> seen >= offset)
      modifies this`seen, this`sent
      ensures sent >= old(sent) && (n >= 0 ==> sent <= n) && (sent > 0 ==> seen >= offset)
      ensures !ok ==> sent == old(sent) && seen == old(seen) + |batch.data| && |batch.data| <= offset - old(seen)
      ensures ok ==> fresh(out.sel) && ValidBatch(out) && Visible(out) != []
      ensures ok ==> Visible(out) == Window(batch.data, offset - old(seen), if n < 0 then -1 else n - old(sent))
      ensures ok ==> sent == old(sent) + |Visible(out)| && seen >= offset
    {
      hide Window, Chosen;
      var rows := |batch.data|;
      var start := if offset - seen > 0 then offset - seen else 0;
      out, ok := batch, false;
      if start >= rows {
        seen := seen + rows;
        return;
      }
      var take := rows - start;
      if n > 0 {
        take := if take < n - sent then take else n - sent;
      }
      if take <= 0 {
        assert false;
      }
      var end := start + take;
      var mask := new SelectionMask.Range(rows, start, end);
      out := Batch(batch.data, mask);
      ChosenRange(batch.data, mask.Mask(), start, end);
      RangeWindow(batch.data, start, take, offset - seen, if n < 0 then -1 else n - sent);
      assert Visible(out) == batch.data[start..end];
      seen := seen + end;
      sent := sent + take;
      ok := true;
    }

    // A batch with a selection of its own.
    method LimitSelectedRows(batch: Batch<T>) returns (out: SelectionMask, ds: nat, dt: nat)
      requires batch.sel != null && ValidBatch(batch)
      requires !Done() && (n >= 0 ==> sent <= n)
      ensures fresh(out) && out.Valid() && out.rows == |batch.data|
      ensures var lo := if offset - seen > 0 then offset - seen else 0;
        && Chosen(batch.data, out.Mask()) == Window(Visible(batch), lo, if n < 0 then -1 else n - sent)
        && dt == |Chosen(batch.data, out.Mask())|
        && ds == dt + Least(|Visible(batch)|, lo)
    {
      hide Window, Chosen, Kept;
      var skip := if offset - seen > 0 then offset - seen else 0;
      var take := -1;
      if n > 0 {
        take := n - sent;
      }
      out, ds, dt := batch.sel.Limit(skip, take);
      ChosenKept(batch.data, batch.sel.Mask(), skip, take);
      ChosenCount(batch.data, out.Mask());
      ChosenCount(batch.data, batch.sel.Mask());
    }

    // One batch that has rows: what it contributes, if anything.
    method Feed(batch: Batch<T>) returns (out: Batch<T>, ok: bool)
      requires ValidBatch(batch) && batch.data != []
      requires !Done() && (n >= 0 ==> sent <= n) && (sent > 0 ==> seen >= offset)
      modifies this`seen, this`sent
      ensures (n >= 0 ==> sent <= n) && (sent > 0 ==> seen >= offset)
      ensures ok <==> Window(Visible(batch), offset - old(seen), if n < 0 then -1 else n - old(sent)) != []
      ensures ok ==> fresh(out.sel) && ValidBatch(out)
      ensures ok ==> Visible(out) == Window(Visible(batch), offset - old(seen), if n < 0 then -1 else n - old(sent))
      ensures !ok ==> sent == old(sent)
      ensures ok ==> sent == old(sent) + |Visible(out)|
      ensures var lo := if offset - old(seen) > 0 then offset - old(seen) else 0;
        (if offset - seen > 0 then offset - seen else 0) == (if lo > |Visible(batch)| then lo - |Visible(batch)| else 0)
    {
      hide Window, Chosen;
      ghost var lo := if offset - seen > 0 then offset - seen else 0;
      ghost var k := if n < 0 then -1 else n - sent;
      if batch.sel == null || batch.sel.allSet {
        if batch.sel != null { ChosenAll(batch.data, batch.sel.Mask()); }
        AllSkipped(batch.data, offset - seen, k);
        out, ok := LimitAllRows(batch);
        return;
      }
      SkipIsClipped(Visible(batch), offset - seen, k);
      AllSkipped(Visible(batch), offset - seen, k);
      WindowSize(Visible(batch), lo, k);
      var mask, ds, dt := LimitSelectedRows(batch);
      seen, sent := seen + ds, sent + dt;
      ok := dt != 0;
      out := if ok then Batch(batch.data, mask) else batch;
    }

    // Takes one batch off the source: an empty one or one that is skipped whole emits nothing.
    method Pull() returns (out: Batch<T>, ok: bool)
      requires Valid() && !Done() && |source| > 0
      modifies this
      ensures Valid() && source == old(source)[1..]
      ensures ok ==> ValidBatch(out) && Visible(out) != [] && old(Left()) == Visible(out) + Left()
      ensures !ok ==> !Done() && Left() == old(Left())
    {
      hide Window, Visible, ValidBatch;
      var batch := source[0];
      ghost var rows, rest := Visible(batch), AllVisible(source[1..]);
      WindowConcat(rows, rest, offset - seen, if n < 0 then -1 else n - sent);
      assert forall i :: 0 <= i < |source[1..]| ==> source[1..][i] == source[i + 1];
      source := source[1..];
      assert Valid();
      if |batch.data| == 0 {
        EmptyBatch(batch);
        NothingAhead<T>(offset - seen, if n < 0 then -1 else n - sent);
        SkipIsClipped(rest, offset - seen, if n < 0 then -1 else n - sent);
        return batch, false;
      }
      out, ok := Feed(batch);
      SkipIsClipped(rest, offset - seen, if n < 0 then -1 else n - sent);
    }

    // The next batch with visible rows in the window, if any.
    method Next() returns (out: Batch<T>, ok: bool)
      requires Valid()
      modifies this
      ensures Valid()
      ensures ok ==> ValidBatch(out) && Visible(out) != [] && old(Left()) == Visible(out) + Left()
      ensures !ok ==> old(Left()) == [] && Left() == []
      ensures |source| <= |old(source)| && (ok ==> |source| < |old(source)|)
    {
      hide Window, Visible, ValidBatch, AllVisible;
      ok := false;
      out := Batch([], null);
      if Done() {
        NothingLeft(AllVisible(source), offset - seen);
        return;
      }
      while |source| > 0
        invariant Valid() && !Done() && Left() == old(Left())
        invariant |source| <= |old(source)|
        decreases |source|
      {
        out, ok := Pull();
        if ok {
          return;
        }
      }
      NoBatches(source);
      NothingAhead<T>(offset - seen, if n < 0 then -1 else n - sent);
    }
  }

  lemma EmptyBatch<T>(b: Batch<T>)
    requires ValidBatch(b) && b.data == []
    ensures Visible(b) == []
  {
  }

  lemma NothingAhead<T>(skip: int, n: int)
    ensures Window<T>([], skip, n) == []
  {
  }

  lemma NothingLeft<T>(rows: seq<T>, skip: int)
    ensures Window(rows, skip, 0) == []
  {
  }

  lemma AllSkipped<T>(rows: seq<T>, skip: int, n: int)
    requires n != 0
    ensures Window(rows, skip, n) == [] <==> |rows| <= if skip > 0 then skip else 0
  {
  }

  // Only the part of the skip that is still positive matters.
  lemma SkipIsClipped<T>(rows: seq<T>, skip: int, n: int)
    ensures Window(rows, skip, n) == Window(rows, if skip > 0 then skip else 0, n)
  {
  }

  lemma WindowSize<T>(rows: seq<T>, skip: int, n: int)
    ensures n >= 0 ==> |Window(rows, skip, n)| <= n
  {
  }

  // A window over two stretches of rows is a window over the first and then
  // one over the second with what is left to skip and to take.
  lemma WindowConcat<T>(a: seq<T>, b: seq<T>, skip: int, n: int)
    ensures var lo := if skip > 0 then skip else 0;
      var got := Window(a, skip, n);
      Window(a + b, skip, n) == got + Window(b, if lo > |a| then lo - |a| else 0, if n < 0 then -1 else n - |got|)
  {
    var lo := if skip > 0 then skip else 0;
    if lo >= |a| {
      assert Drop(a + b, lo) == Drop(b, lo - |a|);
    } else {
      assert Drop(a + b, lo) == a[lo..] + b;
      assert Drop(b, 0) == b;
      if n >= 0 && n < |a| - lo { assert (a[lo..] + b)[..n] == a[lo..][..n]; }
    }
  }

  lemma RangeWindow<T>(rows: seq<T>, start: nat, take: nat, skip: int, n: int)
    requires start == (if skip > 0 then skip else 0) && start + take <= |rows| && take > 0
    requires take == if n < 0 || |rows| - start <= n then |rows| - start else n
    ensures Window(rows, skip, n) == rows[start..start + take] && rows[start..start + take] != []
  {
    assert |rows[start..start + take]| == take;
  }

  lemma Regroup<T>(rows: seq<T>, part: seq<T>, rest: seq<T>, left: seq<T>)
    requires left == part + rest
    ensures rows + part + rest == rows + left
  {
  }

  // Run to the end, the operator emits exactly the visible rows Offset to
  // Offset + N of the concatenated batches.
  method Drain<T>(batches: seq<Batch<T>>, n: int, offset: int) returns (ghost rows: seq<T>, op: LimitOp<T>)
    requires ValidBatches(batches)
    ensures fresh(op) && rows == Window(AllVisible(batches), offset, n)
  {
    hide Window, AllVisible, Visible;
    ghost var wanted := Window(AllVisible(batches), offset, n);
    op := new LimitOp<T>.Open(batches, n, offset);
    rows := [];
    var more := true;
    assert [] + op.Left() == wanted;
    while more
      invariant fresh(op) && op.Valid()
      invariant ValidBatches(batches) && Window(AllVisible(batches), offset, n) == wanted
      invariant rows + op.Left() == wanted
      invariant !more ==> op.Left() == []
      decreases |op.source|, more
      modifies op
    {
      ghost var left := op.Left();
      var out, ok := op.Next();
      if ok {
        Regroup(rows, Visible(out), op.Left(), left);
        rows := rows + Visible(out);
      }
      more := ok;
    }
    assert rows + [] == rows;
  }
}
