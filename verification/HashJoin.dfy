// The hash join operator against the nested-loop join.
module HashJoin {
  import opened Options
  import opened Bytes
  import opened JoinKeys
  import opened NestedLoops

  // ----- the hash index -----

  datatype Bucket = Bucket(key: seq<Byte>, refs: seq<RowRef>)
  type Index = map<nat, seq<Bucket>>

  function FindRefs(buckets: seq<Bucket>, key: seq<Byte>): (refs: seq<RowRef>) {
    if buckets == [] then []
    else if buckets[0].key == key then buckets[0].refs
    else FindRefs(buckets[1..], key)
  }

  function Lookup(index: Index, key: seq<Byte>, sum: nat): (refs: seq<RowRef>) {
    if sum in index then FindRefs(index[sum], key) else []
  }

  lemma {:induction false} FindRefsAt(buckets: seq<Bucket>, key: seq<Byte>, k: nat)
    requires k <= |buckets|
    requires forall i :: 0 <= i < k ==> buckets[i].key != key
    ensures FindRefs(buckets, key) == FindRefs(buckets[k..], key)
    decreases k
  {
    if k == 0 {
      assert buckets[0..] == buckets;
    } else {
      FindRefsAt(buckets[1..], key, k - 1);
      assert buckets[1..][k - 1..] == buckets[k..];
    }
  }

  lemma {:induction false} FindRefsReplace(buckets: seq<Bucket>, k: nat, b: Bucket, key: seq<Byte>)
    requires k < |buckets| && b.key == buckets[k].key != key
    ensures FindRefs(buckets[k := b], key) == FindRefs(buckets, key)
  {
    if k == 0 {
      assert buckets[k := b][1..] == buckets[1..];
    } else {
      assert buckets[k := b][1..] == buckets[1..][k - 1 := b];
      FindRefsReplace(buckets[1..], k - 1, b, key);
    }
  }

  lemma {:induction false} FindRefsAppend(buckets: seq<Bucket>, b: Bucket, key: seq<Byte>)
    requires b.key != key
    ensures FindRefs(buckets + [b], key) == FindRefs(buckets, key)
  {
    if buckets != [] {
      assert (buckets + [b])[1..] == buckets[1..] + [b];
      FindRefsAppend(buckets[1..], b, key);
    } else {
      assert ([] + [b])[1..] == [];
    }
  }

  // Appends ref to the bucket of key, in the list that the hash sum selects.
  method AddRef(index: Index, key: seq<Byte>, sum: nat, ref: RowRef) returns (index': Index)
    ensures Lookup(index', key, sum) == Lookup(index, key, sum) + [ref]
    ensures forall key', sum' :: key' != key ==> Lookup(index', key', sum') == Lookup(index, key', sum')
  {
    var buckets := if sum in index then index[sum] else [];
    for i := 0 to |buckets|
      invariant forall j :: 0 <= j < i ==> buckets[j].key != key
    {
      if buckets[i].key == key {
        var b := Bucket(key, buckets[i].refs + [ref]);
        index' := index[sum := buckets[i := b]];
        FindRefsAt(buckets, key, i);
        FindRefsAt(buckets[i := b], key, i);
        forall key' | key' != key ensures FindRefs(buckets[i := b], key') == FindRefs(buckets, key') {
          FindRefsReplace(buckets, i, b, key');
        }
        return;
      }
    }
    var b := Bucket(key, [ref]);
    index' := index[sum := buckets + [b]];
    FindRefsAt(buckets, key, |buckets|);
    FindRefsAt(buckets + [b], key, |buckets|);
    forall key' | key' != key ensures FindRefs(buckets + [b], key') == FindRefs(buckets, key') {
      FindRefsAppend(buckets, b, key');
    }
  }

  // The bucket scan of a probe.
  method LookupRefs(index: Index, key: seq<Byte>, sum: nat) returns (refs: seq<RowRef>)
    ensures refs == Lookup(index, key, sum)
  {
    var buckets := if sum in index then index[sum] else [];
    for i := 0 to |buckets|
      invariant forall j :: 0 <= j < i ==> buckets[j].key != key
    {
      if buckets[i].key == key {
        FindRefsAt(buckets, key, i);
        return buckets[i].refs;
      }
    }
    FindRefsAt(buckets, key, |buckets|);
    return [];
  }

  // The index answers for the given right rows, whatever the hash function.
  ghost predicate Indexes(index: Index, hash: seq<Byte> -> nat, right: seq<KeyedRow>) {
    forall key :: ValidKey(key) && NonNull(key) ==>
      Lookup(index, EncodeAll(key), hash(EncodeAll(key))) == Matches(right, key)
  }

  lemma MatchesStep(right: seq<KeyedRow>, r: KeyedRow, key: seq<KeyVal>)
    ensures Matches(right + [r], key) == if KeysMatch(key, r.key) then Matches(right, key) + [r.ref] else Matches(right, key)
  {
    assert (right + [r])[..|right|] == right;
  }

  lemma IndexStep(index: Index, index': Index, hash: seq<Byte> -> nat, right: seq<KeyedRow>, r: KeyedRow)
    requires Indexes(index, hash, right) && ValidKey(r.key) && NonNull(r.key)
    requires var e := EncodeAll(r.key);
      && Lookup(index', e, hash(e)) == Lookup(index, e, hash(e)) + [r.ref]
      && forall key', sum' :: key' != e ==> Lookup(index', key', sum') == Lookup(index, key', sum')
    ensures Indexes(index', hash, right + [r])
  {
    forall key | ValidKey(key) && NonNull(key)
      ensures Lookup(index', EncodeAll(key), hash(EncodeAll(key))) == Matches(right + [r], key)
    {
      MatchesStep(right, r, key);
      EncodeExact(key, r.key);
    }
  }

  lemma IndexSkip(index: Index, hash: seq<Byte> -> nat, right: seq<KeyedRow>, r: KeyedRow)
    requires Indexes(index, hash, right) && !NonNull(r.key)
    ensures Indexes(index, hash, right + [r])
  {
    forall key | ValidKey(key) && NonNull(key)
      ensures Lookup(index, EncodeAll(key), hash(EncodeAll(key))) == Matches(right + [r], key)
    {
      MatchesStep(right, r, key);
    }
  }

  lemma {:induction false} NullMatchesNothing(right: seq<KeyedRow>, key: seq<KeyVal>)
    requires !NonNull(key)
    ensures Matches(right, key) == []
  {
    if right != [] { NullMatchesNothing(right[..|right| - 1], key); }
  }

  method EmptyIndex(right: seq<Batch>, hash: seq<Byte> -> nat) returns (index: Index)
    requires AllValid(right)
    ensures Indexes(index, hash, Rows(right, 0))
  {
    index := map[];
  }

  method BuildIndex(right: seq<Batch>, hash: seq<Byte> -> nat) returns (index: Index)
    requires AllValid(right)
    ensures Indexes(index, hash, Rows(right, |right|))
  {
    hide Indexes, Rows;
    index := EmptyIndex(right, hash);
    for b := 0 to |right|
      invariant Indexes(index, hash, Rows(right, b))
    {
      RowsStart(right, b);
      for row := 0 to |right[b].keys|
        invariant Indexes(index, hash, RowsUpTo(right, b, row))
      {
        RowsStep(right, b, row);
        if !right[b].sel[row] {
          continue;
        }
        ghost var r := KeyedRow(RowRef(b, row), right[b].keys[row]);
        ghost var seen := RowsUpTo(right, b, row);
        var key := EncodeRow(right[b].keys[row]);
        if key.None? {
          IndexSkip(index, hash, seen, r);
          continue;
        }
        var next := AddRef(index, key.value, hash(key.value), RowRef(b, row));
        IndexStep(index, next, hash, seen, r);
        index := next;
      }
      RowsEnd(right, b);
    }
  }

  lemma NothingProbed(left: seq<Batch>, right: seq<KeyedRow>, kind: JoinKind)
    requires AllValid(left)
    ensures Rows(left, 0) == [] && ProbeAll([], right, kind) == []
  {
  }

  // ----- the matched masks -----

  // masks[b][r] says row r of right batch b has been matched by one of the left rows.
  ghost predicate MaskShape(right: seq<Batch>, masks: seq<seq<bool>>) {
    |masks| == |right| && forall b :: 0 <= b < |right| ==> |masks[b]| == |right[b].keys|
  }

  lemma NothingMatched(right: seq<Batch>, masks: seq<seq<bool>>)
    requires AllValid(right) && MaskShape(right, masks)
    requires forall b :: 0 <= b < |masks| ==> forall r :: 0 <= r < |masks[b]| ==> !masks[b][r]
    ensures MasksHold(right, masks, [])
  {
  }

  ghost predicate MasksHold(right: seq<Batch>, masks: seq<seq<bool>>, left: seq<KeyedRow>)
    requires AllValid(right)
  {
    && MaskShape(right, masks)
    && forall b, r :: 0 <= b < |right| && 0 <= r < |right[b].keys| && right[b].sel[r] ==>
         (masks[b][r] <==> !Unmatched(left, KeyedRow(RowRef(b, r), right[b].keys[r])))
  }

  // What a probe marks: the right rows whose key matches.
  lemma MatchedRefs(right: seq<Batch>, key: seq<KeyVal>, b: nat, r: nat)
    requires AllValid(right) && b < |right| && r < |right[b].keys| && right[b].sel[r]
    ensures RowRef(b, r) in Matches(Rows(right, |right|), key) <==> KeysMatch(key, right[b].keys[r])
  {
    var rows := Rows(right, |right|);
    RowsAre(right, |right|);
    MatchesAre(rows, key, RowRef(b, r));
    var x := KeyedRow(RowRef(b, r), right[b].keys[r]);
    assert x in rows;
    if RowRef(b, r) in Matches(rows, key) {
      var i :| 0 <= i < |rows| && rows[i].ref == RowRef(b, r) && KeysMatch(key, rows[i].key);
      assert rows[i] in rows;
    }
    if KeysMatch(key, right[b].keys[r]) {
      var i :| 0 <= i < |rows| && rows[i] == x;
    }
  }

  lemma MatchedInRange(right: seq<Batch>, key: seq<KeyVal>, ref: RowRef)
    requires AllValid(right) && ref in Matches(Rows(right, |right|), key)
    ensures ref.batch < |right| && ref.row < |right[ref.batch].keys| && right[ref.batch].sel[ref.row]
  {
    var rows := Rows(right, |right|);
    RowsAre(right, |right|);
    MatchesAre(rows, key, ref);
    var i :| 0 <= i < |rows| && rows[i].ref == ref;
    assert rows[i] in rows;
  }

  method MarkMatched(right: seq<Batch>, masks: seq<seq<bool>>, refs: seq<RowRef>) returns (masks': seq<seq<bool>>)
    requires MaskShape(right, masks)
    requires forall ref :: ref in refs ==> ref.batch < |right| && ref.row < |right[ref.batch].keys|
    ensures MaskShape(right, masks')
    ensures forall b, r :: 0 <= b < |right| && 0 <= r < |right[b].keys| ==>
      (masks'[b][r] <==> masks[b][r] || RowRef(b, r) in refs)
  {
    masks' := masks;
    for i := 0 to |refs|
      invariant MaskShape(right, masks')
      invariant forall b, r :: 0 <= b < |right| && 0 <= r < |right[b].keys| ==>
        (masks'[b][r] <==> masks[b][r] || RowRef(b, r) in refs[..i])
    {
      var ref := refs[i];
      assert ref in refs;
      assert refs[..i + 1] == refs[..i] + [ref];
      masks' := masks'[ref.batch := masks'[ref.batch][ref.row := true]];
    }
    assert refs[..|refs|] == refs;
  }

  lemma MasksStep(right: seq<Batch>, masks: seq<seq<bool>>, masks': seq<seq<bool>>, left: seq<KeyedRow>, l: KeyedRow)
    requires AllValid(right) && MasksHold(right, masks, left) && MaskShape(right, masks')
    requires forall b, r :: 0 <= b < |right| && 0 <= r < |right[b].keys| ==>
      (masks'[b][r] <==> masks[b][r] || RowRef(b, r) in Matches(Rows(right, |right|), l.key))
    ensures MasksHold(right, masks', left + [l])
  {
    forall b, r | 0 <= b < |right| && 0 <= r < |right[b].keys| && right[b].sel[r]
      ensures masks'[b][r] <==> !Unmatched(left + [l], KeyedRow(RowRef(b, r), right[b].keys[r]))
    {
      MatchedRefs(right, l.key, b, r);
      UnmatchedStep(left, l, KeyedRow(RowRef(b, r), right[b].keys[r]));
    }
  }

  lemma UnmatchedStep(left: seq<KeyedRow>, l: KeyedRow, r: KeyedRow)
    ensures Unmatched(left + [l], r) <==> Unmatched(left, r) && !KeysMatch(l.key, r.key)
  {
    assert (left + [l])[|left|] == l;
    assert forall i :: 0 <= i < |left| ==> (left + [l])[i] == left[i];
  }

  lemma ProbeStep(left: seq<KeyedRow>, l: KeyedRow, right: seq<KeyedRow>, kind: JoinKind)
    ensures ProbeAll(left + [l], right, kind) == ProbeAll(left, right, kind) + JoinOne(l, right, kind)
  {
    assert (left + [l])[..|left|] == left;
  }

  // The first r rows of right batch b, after all earlier batches.
  function RowsUpTo(bs: seq<Batch>, b: nat, r: nat): (rows: seq<KeyedRow>)
    requires AllValid(bs) && b <= |bs| && (b < |bs| ==> r <= |bs[b].keys|) && (b == |bs| ==> r == 0)
  {
    if b == |bs| then Rows(bs, b) else Rows(bs, b) + BatchRows(bs, b, r)
  }

  lemma DrainStep(left: seq<KeyedRow>, right: seq<KeyedRow>, r: KeyedRow)
    ensures DrainAll(left, right + [r])
      == if Unmatched(left, r) then DrainAll(left, right) + [OutRow(None, Some(r.ref))] else DrainAll(left, right)
  {
    assert (right + [r])[..|right|] == right;
  }

  // A row waiting to be emitted; leftRow belongs to the batch being probed.
  datatype JoinRow = JoinRow(leftRow: nat, right: RowRef, hasLeft: bool, hasRight: bool)

  const NO_REF := RowRef(0, 0)

  function EmitRow(probe: nat, r: JoinRow): OutRow {
    OutRow(if r.hasLeft then Some(RowRef(probe, r.leftRow)) else None, if r.hasRight then Some(r.right) else None)
  }

  function EmitRows(probe: nat, rows: seq<JoinRow>): (out: seq<OutRow>)
    ensures |out| == |rows|
    ensures forall i :: 0 <= i < |rows| ==> out[i] == EmitRow(probe, rows[i])
  {
    seq(|rows|, i requires 0 <= i < |rows| => EmitRow(probe, rows[i]))
  }

  lemma EmitConcat(probe: nat, x: seq<JoinRow>, y: seq<JoinRow>)
    ensures EmitRows(probe, x + y) == EmitRows(probe, x) + EmitRows(probe, y)
  {
  }

  lemma ChunkStep(emitted: seq<OutRow>, probe: nat, pending: seq<JoinRow>, n: nat)
    requires n <= |pending|
    ensures emitted + EmitRows(probe, pending[..n]) + EmitRows(probe, pending[n..]) == emitted + EmitRows(probe, pending)
  {
    EmitConcat(probe, pending[..n], pending[n..]);
    assert pending == pending[..n] + pending[n..];
  }

  // Adding the rows of one more left row to what a probe has collected.
  lemma CollectStep(base: seq<OutRow>, probe: nat, was: seq<JoinRow>, added: seq<JoinRow>,
                    before: seq<KeyedRow>, l: KeyedRow, right: seq<KeyedRow>, kind: JoinKind)
    requires base + EmitRows(probe, was) == ProbeAll(before, right, kind)
    requires EmitRows(probe, added) == JoinOne(l, right, kind)
    ensures base + EmitRows(probe, was + added) == ProbeAll(before + [l], right, kind)
  {
    EmitConcat(probe, was, added);
    ProbeStep(before, l, right, kind);
    assert base + (EmitRows(probe, was) + EmitRows(probe, added)) == base + EmitRows(probe, was) + EmitRows(probe, added);
  }

  function MatchedPairs(row: nat, refs: seq<RowRef>): (rows: seq<JoinRow>)
    ensures |rows| == |refs|
  {
    seq(|refs|, i requires 0 <= i < |refs| => JoinRow(row, refs[i], true, true))
  }

  lemma RowsStep(bs: seq<Batch>, b: nat, r: nat)
    requires AllValid(bs) && b < |bs| && r < |bs[b].keys|
    ensures RowsUpTo(bs, b, r + 1)
      == if bs[b].sel[r] then RowsUpTo(bs, b, r) + [KeyedRow(RowRef(b, r), bs[b].keys[r])] else RowsUpTo(bs, b, r)
  {
    if bs[b].sel[r] {
      var x := KeyedRow(RowRef(b, r), bs[b].keys[r]);
      assert Rows(bs, b) + (BatchRows(bs, b, r) + [x]) == Rows(bs, b) + BatchRows(bs, b, r) + [x];
    }
  }

  lemma RowsEnd(bs: seq<Batch>, b: nat)
    requires AllValid(bs) && b < |bs|
    ensures RowsUpTo(bs, b, |bs[b].keys|) == Rows(bs, b + 1)
  {
  }

  lemma RowsStart(bs: seq<Batch>, b: nat)
    requires AllValid(bs) && b <= |bs|
    ensures RowsUpTo(bs, b, 0) == Rows(bs, b)
  {
    if b < |bs| { assert Rows(bs, b) + [] == Rows(bs, b); }
  }

  // What draining has emitted once it has reached row r of right batch b.
  ghost function Drained(left: seq<Batch>, right: seq<Batch>, kind: JoinKind, b: nat, r: nat): (out: seq<OutRow>)
    requires AllValid(left) && AllValid(right)
    requires b <= |right| && (b < |right| ==> r <= |right[b].keys|) && (b == |right| ==> r == 0)
  {
    ProbeAll(Rows(left, |left|), Rows(right, |right|), kind) + DrainAll(Rows(left, |left|), RowsUpTo(right, b, r))
  }

  lemma DrainedStep(left: seq<Batch>, right: seq<Batch>, kind: JoinKind, b: nat, r: nat)
    requires AllValid(left) && AllValid(right) && b < |right| && r < |right[b].keys|
    ensures Drained(left, right, kind, b, r + 1)
      == if right[b].sel[r] && Unmatched(Rows(left, |left|), KeyedRow(RowRef(b, r), right[b].keys[r]))
         then Drained(left, right, kind, b, r) + [OutRow(None, Some(RowRef(b, r)))]
         else Drained(left, right, kind, b, r)
  {
    hide Rows, RowsUpTo, ProbeAll, DrainAll, Unmatched, AllValid;
    RowsStep(right, b, r);
    DrainStep(Rows(left, |left|), RowsUpTo(right, b, r), KeyedRow(RowRef(b, r), right[b].keys[r]));
  }

  lemma DrainedBatchEnd(left: seq<Batch>, right: seq<Batch>, kind: JoinKind, b: nat)
    requires AllValid(left) && AllValid(right) && b < |right|
    ensures Drained(left, right, kind, b, |right[b].keys|) == Drained(left, right, kind, b + 1, 0)
  {
    RowsStart(right, b + 1);
  }

  lemma DrainedAll(left: seq<Batch>, right: seq<Batch>, kind: JoinKind)
    requires AllValid(left) && AllValid(right) && kind.KeepsRight()
    ensures Drained(left, right, kind, |right|, 0) == NestedLoop(Rows(left, |left|), Rows(right, |right|), kind)
  {
    RowsStart(right, |right|);
  }

  lemma DrainedNone(left: seq<Batch>, right: seq<Batch>, kind: JoinKind)
    requires AllValid(left) && AllValid(right)
    ensures Drained(left, right, kind, 0, 0) == ProbeAll(Rows(left, |left|), Rows(right, |right|), kind)
    ensures !kind.KeepsRight() ==> Drained(left, right, kind, 0, 0) == NestedLoop(Rows(left, |left|), Rows(right, |right|), kind)
  {
    RowsStart(right, 0);
    var all := ProbeAll(Rows(left, |left|), Rows(right, |right|), kind);
    assert all + [] == all;
  }

  // ----- nothing is emitted beyond the join -----

  lemma {:induction false} ProbeGrows(a: seq<KeyedRow>, b: seq<KeyedRow>, right: seq<KeyedRow>, kind: JoinKind)
    requires a <= b
    ensures |ProbeAll(a, right, kind)| <= |ProbeAll(b, right, kind)|
    decreases |b|
  {
    if |a| < |b| {
      assert a <= b[..|b| - 1];
      ProbeGrows(a, b[..|b| - 1], right, kind);
    } else {
      assert a == b;
    }
  }

  lemma {:induction false} DrainGrows(left: seq<KeyedRow>, a: seq<KeyedRow>, b: seq<KeyedRow>)
    requires a <= b
    ensures |DrainAll(left, a)| <= |DrainAll(left, b)|
    decreases |b|
  {
    if |a| < |b| {
      assert a <= b[..|b| - 1];
      DrainGrows(left, a, b[..|b| - 1]);
    } else {
      assert a == b;
    }
  }

  lemma {:induction false} BatchRowsGrow(bs: seq<Batch>, b: nat, r: nat, n: nat)
    requires b < |bs| && bs[b].Valid() && r <= n <= |bs[b].keys|
    ensures BatchRows(bs, b, r) <= BatchRows(bs, b, n)
    decreases n
  {
    if r < n { BatchRowsGrow(bs, b, r, n - 1); }
  }

  lemma {:induction false} RowsGrow(bs: seq<Batch>, m: nat, n: nat)
    requires AllValid(bs) && m <= n <= |bs|
    ensures Rows(bs, m) <= Rows(bs, n)
    decreases n
  {
    if m < n { RowsGrow(bs, m, n - 1); }
  }

  lemma RowsUpToGrow(bs: seq<Batch>, b: nat, r: nat)
    requires AllValid(bs) && b <= |bs| && (b < |bs| ==> r <= |bs[b].keys|) && (b == |bs| ==> r == 0)
    ensures RowsUpTo(bs, b, r) <= Rows(bs, |bs|)
  {
    if b < |bs| {
      BatchRowsGrow(bs, b, r, |bs[b].keys|);
      PrefixAppend(Rows(bs, b), BatchRows(bs, b, r), BatchRows(bs, b, |bs[b].keys|));
      RowsGrow(bs, b + 1, |bs|);
      hide Rows, BatchRows;
      PrefixTrans(RowsUpTo(bs, b, r), RowsUpTo(bs, b, |bs[b].keys|), Rows(bs, |bs|));
    }
  }

  lemma PrefixAppend(a: seq<KeyedRow>, x: seq<KeyedRow>, y: seq<KeyedRow>)
    requires x <= y
    ensures a + x <= a + y
  {
  }

  lemma PrefixTrans(a: seq<KeyedRow>, b: seq<KeyedRow>, c: seq<KeyedRow>)
    requires a <= b <= c
    ensures a <= c
  {
  }

  class HashJoinOp {
    const kind: JoinKind
    const left: seq<Batch>
    const right: seq<Batch>
    const hash: seq<Byte> -> nat

    var built: bool
    var leftDrained: bool
    var index: Index
    var matched: seq<seq<bool>>
    var leftPos: nat
    var probe: nat
    var pending: seq<JoinRow>
    var drainBatch: nat
    var drainRow: nat

    ghost var emitted: seq<OutRow>

    ghost predicate Inputs() {
      AllValid(left) && AllValid(right)
    }

    ghost function LeftRows(): seq<KeyedRow>
      requires Inputs()
    {
      Rows(left, |left|)
    }

    ghost function RightRows(): seq<KeyedRow>
      requires Inputs()
    {
      Rows(right, |right|)
    }

    ghost predicate IndexReady()
      requires Inputs()
      reads this`index
    {
      Indexes(index, hash, RightRows())
    }

    ghost predicate MasksReady(seen: seq<KeyedRow>)
      requires Inputs()
      reads this`matched
    {
      kind.KeepsRight() ==> MasksHold(right, matched, seen)
    }

    // Everything emitted or pending is the join of the first n left batches.
    ghost predicate Probed(n: nat)
      requires Inputs() && n <= |left|
      reads this`emitted, this`probe, this`pending
    {
      emitted + EmitRows(probe, pending) == ProbeAll(Rows(left, n), RightRows(), kind)
    }

    ghost predicate DrainPosition()
      requires Inputs()
      reads this`drainBatch, this`drainRow
    {
      && drainBatch <= |right|
      && (drainBatch < |right| ==> drainRow <= |right[drainBatch].keys|)
      && (drainBatch == |right| ==> drainRow == 0)
    }

    ghost predicate Valid()
      reads this
    {
      && Inputs()
      && (!built ==> !leftDrained && pending == [] && leftPos == 0 && emitted == [])
      && (!leftDrained ==> drainBatch == 0 && drainRow == 0)
      && (built ==> IndexReady())
      && (built && !leftDrained ==> leftPos <= |left| && Probed(leftPos) && MasksReady(Rows(left, leftPos)))
      && (leftDrained ==>
            && built && DrainPosition() && MasksReady(LeftRows())
            && emitted == Drained(left, right, kind, drainBatch, drainRow)
            && (!kind.KeepsRight() ==> drainBatch == 0 && drainRow == 0))
    }

    constructor (kind: JoinKind, left: seq<Batch>, right: seq<Batch>, hash: seq<Byte> -> nat)
      requires AllValid(left) && AllValid(right)
      ensures Valid() && emitted == [] && this.kind == kind && this.left == left && this.right == right
    {
      this.kind, this.left, this.right, this.hash := kind, left, right, hash;
      built, leftDrained, index, matched := false, false, map[], [];
      leftPos, probe, pending, drainBatch, drainRow := 0, 0, [], 0, 0;
      emitted := [];
    }

    method Build()
      requires Valid() && !built
      modifies this
      ensures Valid() && built && !leftDrained && emitted == []
    {
      hide Indexes, ProbeAll, MasksHold, Drained, Rows, AllValid;
      index := BuildIndex(right, hash);
      if kind.KeepsRight() {
        matched := seq(|right|, b requires 0 <= b < |right| => seq(|right[b].keys|, r => false));
      }
      built := true;
      NothingProbed(left, RightRows(), kind);
      if kind.KeepsRight() { NothingMatched(right, matched); }
    }

    // Joins one selected left row, appending to pending.
    method CollectRow(b: nat, row: nat, ghost before: seq<KeyedRow>) returns (ghost added: seq<JoinRow>)
      requires Inputs() && b < |left| && row < |left[b].keys| && IndexReady() && MasksReady(before)
      modifies this`pending, this`matched
      ensures pending == old(pending) + added
      ensures EmitRows(b, added) == JoinOne(KeyedRow(RowRef(b, row), left[b].keys[row]), RightRows(), kind)
      ensures MasksReady(before + [KeyedRow(RowRef(b, row), left[b].keys[row])])
    {
      ghost var l := KeyedRow(RowRef(b, row), left[b].keys[row]);
      var key := EncodeRow(left[b].keys[row]);
      var refs: seq<RowRef> := [];
      if key.Some? {
        refs := LookupRefs(index, key.value, hash(key.value));
      } else {
        NullMatchesNothing(RightRows(), l.key);
      }
      if |refs| == 0 && kind.KeepsLeft() {
        added := [JoinRow(row, NO_REF, true, false)];
        pending := pending + [JoinRow(row, NO_REF, true, false)];
      } else {
        added := MatchedPairs(row, refs);
        AppendPairs(row, refs);
      }
      if kind.KeepsRight() {
        forall ref | ref in refs ensures ref.batch < |right| && ref.row < |right[ref.batch].keys| {
          MatchedInRange(right, l.key, ref);
        }
        ghost var masks := matched;
        matched := MarkMatched(right, matched, refs);
        MasksStep(right, masks, matched, before, l);
      }
    }

    method AppendPairs(row: nat, refs: seq<RowRef>)
      modifies this`pending
      ensures pending == old(pending) + MatchedPairs(row, refs)
    {
      for i := 0 to |refs|
        invariant pending == old(pending) + MatchedPairs(row, refs)[..i]
      {
        pending := pending + [JoinRow(row, refs[i], true, true)];
      }
    }

    // Joins one left batch into pending.
    method CollectRows(b: nat)
      requires Inputs() && b < |left| && IndexReady()
      requires MasksReady(Rows(left, b))
      requires emitted == ProbeAll(Rows(left, b), RightRows(), kind)
      modifies this`pending, this`matched
      ensures emitted + EmitRows(b, pending) == ProbeAll(Rows(left, b + 1), RightRows(), kind)
      ensures MasksReady(Rows(left, b + 1))
    {
      hide ProbeAll, Rows, JoinOne, MasksHold;
      pending := [];
      RowsStart(left, b);
      assert emitted + EmitRows(b, []) == emitted;
      for row := 0 to |left[b].keys|
        invariant emitted + EmitRows(b, pending) == ProbeAll(RowsUpTo(left, b, row), RightRows(), kind)
        invariant MasksReady(RowsUpTo(left, b, row))
      {
        RowsStep(left, b, row);
        if !left[b].sel[row] {
          continue;
        }
        ghost var was, before := pending, RowsUpTo(left, b, row);
        ghost var added := CollectRow(b, row, before);
        CollectStep(emitted, b, was, added, before, KeyedRow(RowRef(b, row), left[b].keys[row]), RightRows(), kind);
      }
      RowsEnd(left, b);
    }

    // The next chunk of pending rows.
    method EmitChunk() returns (chunk: seq<OutRow>)
      requires Valid() && built && !leftDrained && pending != []
      modifies this`pending, this`emitted
      ensures Valid() && 0 < |chunk| <= STANDARD_BATCH_ROWS && emitted == old(emitted) + chunk
    {
      var n := if |pending| > STANDARD_BATCH_ROWS then STANDARD_BATCH_ROWS else |pending|;
      chunk := EmitRows(probe, pending[..n]);
      ChunkStep(emitted, probe, pending, n);
      emitted := emitted + chunk;
      pending := pending[n..];
    }

    // Probes left batches until some rows are pending or the left side is exhausted.
    method ProbeOn()
      requires Valid() && built && !leftDrained
      modifies this`pending, this`matched, this`probe, this`leftPos
      ensures Valid() && (pending == [] ==> leftPos == |left|)
    {
      hide ProbeAll, Rows, Indexes, MasksHold;
      while pending == [] && leftPos < |left|
        invariant Inputs() && IndexReady() && leftPos <= |left| && Probed(leftPos) && MasksReady(Rows(left, leftPos))
        decreases |left| - leftPos
      {
        assert emitted + EmitRows(probe, []) == emitted;
        CollectRows(leftPos);
        probe := leftPos;
        leftPos := leftPos + 1;
      }
    }

    method FinishProbe()
      requires Valid() && built && !leftDrained && pending == [] && leftPos == |left|
      modifies this`leftDrained
      ensures Valid() && leftDrained
    {
      DrainedNone(left, right, kind);
      assert emitted + EmitRows(probe, []) == emitted;
      leftDrained := true;
    }

    // Whether row r of the current right batch is emitted by the drain.
    predicate ToDrain(r: nat)
      reads this`matched, this`drainBatch
      requires drainBatch < |right| && right[drainBatch].Valid() && r < |right[drainBatch].keys|
      requires MaskShape(right, matched)
    {
      right[drainBatch].sel[r] && !matched[drainBatch][r]
    }

    lemma DrainedNext(rows: seq<OutRow>, r: nat)
      requires Inputs() && kind.KeepsRight() && MasksReady(LeftRows())
      requires drainBatch < |right| && r < |right[drainBatch].keys|
      requires emitted + rows == Drained(left, right, kind, drainBatch, r)
      ensures emitted + (if ToDrain(r) then rows + [OutRow(None, Some(RowRef(drainBatch, r)))] else rows)
           == Drained(left, right, kind, drainBatch, r + 1)
    {
      hide Drained, DrainAll, ProbeAll, Unmatched;
      DrainedStep(left, right, kind, drainBatch, r);
      var out := OutRow(None, Some(RowRef(drainBatch, r)));
      assert emitted + (rows + [out]) == emitted + rows + [out];
    }

    // The unmatched rows of the current right batch, from drainRow on, up to a full chunk.
    method DrainBatchRows(start: seq<OutRow>) returns (rows: seq<OutRow>)
      requires Inputs() && DrainPosition() && drainBatch < |right| && |start| < STANDARD_BATCH_ROWS
      requires kind.KeepsRight() && MasksReady(LeftRows())
      requires emitted + start == Drained(left, right, kind, drainBatch, drainRow)
      modifies this`drainRow
      ensures DrainPosition() && emitted + rows == Drained(left, right, kind, drainBatch, drainRow)
      ensures |rows| <= STANDARD_BATCH_ROWS
      ensures |rows| < STANDARD_BATCH_ROWS ==> drainRow == |right[drainBatch].keys|
    {
      hide Drained, DrainAll, ProbeAll, Unmatched;
      rows := start;
      while drainRow < |right[drainBatch].keys|
        invariant drainRow <= |right[drainBatch].keys| && |rows| < STANDARD_BATCH_ROWS
        invariant emitted + rows == Drained(left, right, kind, drainBatch, drainRow)
      {
        var r := drainRow;
        DrainedNext(rows, r);
        drainRow := drainRow + 1;
        if !right[drainBatch].sel[r] {
          continue;
        }
        if matched[drainBatch][r] {
          continue;
        }
        rows := rows + [OutRow(None, Some(RowRef(drainBatch, r)))];
        if |rows| >= STANDARD_BATCH_ROWS {
          return;
        }
      }
    }

    // Moves on through the right batches until a chunk is full or all are done.
    method DrainBatches() returns (rows: seq<OutRow>)
      requires Inputs() && DrainPosition() && kind.KeepsRight() && MasksReady(LeftRows())
      requires emitted == Drained(left, right, kind, drainBatch, drainRow)
      modifies this`drainBatch, this`drainRow
      ensures DrainPosition() && emitted + rows == Drained(left, right, kind, drainBatch, drainRow)
      ensures |rows| <= STANDARD_BATCH_ROWS
      ensures rows == [] ==> drainBatch == |right|
    {
      hide Drained, Rows, ProbeAll, DrainAll;
      rows := [];
      assert emitted + [] == emitted;
      while drainBatch < |right|
        invariant DrainPosition() && |rows| < STANDARD_BATCH_ROWS
        invariant emitted + rows == Drained(left, right, kind, drainBatch, drainRow)
        decreases |right| - drainBatch
      {
        rows := DrainBatchRows(rows);
        if |rows| >= STANDARD_BATCH_ROWS {
          return;
        }
        DrainedBatchEnd(left, right, kind, drainBatch);
        drainBatch := drainBatch + 1;
        drainRow := 0;
      }
    }

    // The next chunk of unmatched right rows; None when all have been emitted.
    method DrainUnmatchedRight() returns (chunk: Option<seq<OutRow>>)
      requires Valid() && leftDrained && kind.KeepsRight()
      modifies this`drainBatch, this`drainRow, this`emitted
      ensures Valid()
      ensures chunk.Some? ==> 0 < |chunk.value| <= STANDARD_BATCH_ROWS && emitted == old(emitted) + chunk.value
      ensures chunk.None? ==> emitted == old(emitted) == NestedLoop(LeftRows(), RightRows(), kind)
    {
      hide Drained, DrainAll, ProbeAll, Unmatched, NestedLoop;
      var rows := DrainBatches();
      emitted := emitted + rows;
      if |rows| == 0 {
        assert emitted == old(emitted);
        DrainedAll(left, right, kind);
        return None;
      }
      return Some(rows);
    }

    lemma EmittedIsBounded()
      requires Valid()
      ensures |emitted| <= |NestedLoop(LeftRows(), RightRows(), kind)|
    {
      if leftDrained {
        RowsUpToGrow(right, drainBatch, drainRow);
        DrainGrows(LeftRows(), RowsUpTo(right, drainBatch, drainRow), RightRows());
        RowsStart(right, 0);
      } else if built {
        RowsGrow(left, leftPos, |left|);
        ProbeGrows(Rows(left, leftPos), LeftRows(), RightRows(), kind);
      }
    }

    // The operator's Next: a chunk of joined rows, or None at the end.
    method Next() returns (chunk: Option<seq<OutRow>>)
      requires Valid()
      modifies this
      ensures Valid()
      ensures chunk.Some? ==> 0 < |chunk.value| <= STANDARD_BATCH_ROWS && emitted == old(emitted) + chunk.value
      ensures chunk.None? ==> emitted == old(emitted) == NestedLoop(LeftRows(), RightRows(), kind)
    {
      hide Drained, DrainAll, ProbeAll, NestedLoop;
      if !built {
        Build();
      }
      if !leftDrained {
        ProbeOn();
        if pending != [] {
          var rows := EmitChunk();
          return Some(rows);
        }
        FinishProbe();
      }
      if !kind.KeepsRight() {
        DrainedNone(left, right, kind);
        return None;
      }
      chunk := DrainUnmatchedRight();
    }
  }

  // Running the operator to the end delivers the nested-loop join, row by row.
  method RunJoin(kind: JoinKind, left: seq<Batch>, right: seq<Batch>, hash: seq<Byte> -> nat) returns (out: seq<OutRow>)
    requires AllValid(left) && AllValid(right)
    ensures out == NestedLoop(Rows(left, |left|), Rows(right, |right|), kind)
    ensures IsJoin(out, left, right, kind)
  {
    hide IsJoin;
    NestedLoopIsJoin(left, right, kind);
    var op := new HashJoinOp(kind, left, right, hash);
    out := [];
    var chunk := op.Next();
    while chunk.Some?
      invariant fresh(op) && op.Valid() && op.kind == kind && op.left == left && op.right == right
      invariant chunk.Some? ==> op.emitted == out + chunk.value && 0 < |chunk.value|
      invariant chunk.None? ==> op.emitted == out == NestedLoop(op.LeftRows(), op.RightRows(), kind)
      decreases |NestedLoop(op.LeftRows(), op.RightRows(), kind)| - |out|
    {
      op.EmittedIsBounded();
      out := out + chunk.value;
      chunk := op.Next();
    }
  }
}
