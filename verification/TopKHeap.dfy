// The two bounded containers of the top-K operators: a sorted array that
// shifts on insertion (small capacities) and a binary heap whose root is the
// weakest row kept (large capacities).
module TopKHeap {
  import opened Sorting
  import opened SortOrder

  // ----- the sorted array -----

  // noNull selects the comparator used on pages known to hold no null.
  predicate ItemBefore(noNull: bool, a: Item, b: Item, desc: bool) {
    if noNull then TopKNoNullBefore(a.key, a.seqNo, b.key, b.seqNo, desc)
    else CmpItem(a, b, desc) < 0
  }

  // item against each kept row, as a predicate on the kept row.
  function Ahead(noNull: bool, item: Item, desc: bool): (p: Item -> bool) {
    (x: Item) => ItemBefore(noNull, item, x, desc)
  }

  // The binary search for the first row that satisfies p, on rows where p stays true once true.
  function Slot(s: seq<Item>, p: Item -> bool, lo: nat, hi: nat): (k: nat)
    requires lo <= hi <= |s|
    ensures lo <= k <= hi
    ensures lo < hi && p(s[hi - 1]) ==> k < hi
    decreases hi - lo
  {
    if lo == hi then lo
    else
      var mid := (lo + hi) / 2;
      if p(s[mid]) then Slot(s, p, lo, mid) else Slot(s, p, mid + 1, hi)
  }

  lemma {:induction false} SlotSplits(s: seq<Item>, p: Item -> bool, lo: nat, hi: nat)
    requires lo <= hi <= |s|
    requires forall i, j :: 0 <= i < j < |s| && p(s[i]) ==> p(s[j])
    requires forall i :: 0 <= i < lo ==> !p(s[i])
    requires forall i :: hi <= i < |s| ==> p(s[i])
    ensures forall i :: 0 <= i < Slot(s, p, lo, hi) ==> !p(s[i])
    ensures forall i :: Slot(s, p, lo, hi) <= i < |s| ==> p(s[i])
    decreases hi - lo
  {
    if lo < hi {
      var mid := (lo + hi) / 2;
      if p(s[mid]) { SlotSplits(s, p, lo, mid); } else { SlotSplits(s, p, mid + 1, hi); }
    }
  }

  // The kept rows after one more row is offered.
  function KeepRow(kept: seq<Item>, item: Item, cap: nat, noNull: bool, desc: bool): (r: seq<Item>)
    requires |kept| <= cap && 0 < cap
    ensures |r| <= cap
  {
    var p := Ahead(noNull, item, desc);
    if |kept| == cap && !p(kept[|kept| - 1]) then kept
    else
      var lo := Slot(kept, p, 0, |kept|);
      Take(kept[..lo] + [item] + kept[lo..], cap)
  }

  method FindSlot(data: array<Item>, n: nat, item: Item, noNull: bool, desc: bool) returns (lo: nat)
    requires n <= data.Length
    ensures lo <= n && lo == Slot(data[..n], Ahead(noNull, item, desc), 0, n)
  {
    hide ItemBefore;
    var hi := n;
    lo := 0;
    while lo < hi
      invariant 0 <= lo <= hi <= n
      invariant Slot(data[..n], Ahead(noNull, item, desc), lo, hi) == Slot(data[..n], Ahead(noNull, item, desc), 0, n)
    {
      var mid := (lo + hi) / 2;
      assert data[mid] == data[..n][mid];
      if ItemBefore(noNull, item, data[mid], desc) {
        hi := mid;
      } else {
        lo := mid + 1;
      }
    }
  }

  lemma ShiftedIs(s: seq<Item>, t: seq<Item>, lo: nat, item: Item)
    requires lo < |s| == |t| && t[lo] == item
    requires (forall i :: 0 <= i < lo ==> t[i] == s[i]) && (forall i :: lo < i < |s| ==> t[i] == s[i - 1])
    ensures t == s[..lo] + [item] + s[lo..|s| - 1]
  {
  }

  // Moves cells lo..m-1 one to the right and writes item at lo; the last cell falls off.
  method ShiftIn(data: array<Item>, lo: nat, m: nat, item: Item)
    requires lo < m <= data.Length
    modifies data
    ensures data[..m] == old(data[..lo]) + [item] + old(data[lo..m - 1])
  {
    ghost var s := data[..m];
    var k := m - 1;
    while k > lo
      invariant lo <= k < m
      invariant forall i :: 0 <= i <= k ==> data[i] == old(data[i])
      invariant forall i :: k < i < m ==> data[i] == old(data[i - 1])
    {
      data[k] := data[k - 1];
      k := k - 1;
    }
    data[lo] := item;
    ShiftedIs(s, data[..m], lo, item);
    assert s[..lo] == old(data[..lo]) && s[lo..m - 1] == old(data[lo..m - 1]);
  }

  // Offers item to the first n cells of data and returns how many are in use afterwards.
  method InsertBounded(data: array<Item>, n: nat, item: Item, noNull: bool, desc: bool) returns (m: nat)
    requires 0 < data.Length && n <= data.Length
    modifies data
    ensures m <= data.Length
    ensures data[..m] == KeepRow(old(data[..n]), item, data.Length, noNull, desc)
  {
    hide Slot, ItemBefore;
    ghost var s := data[..n];
    ghost var cap := data.Length;
    if n == data.Length && !ItemBefore(noNull, item, data[n - 1], desc) {
      return n;
    }
    var lo := FindSlot(data, n, item, noNull, desc);
    m := if n < data.Length then n + 1 else n;
    ghost var front, rest := data[..lo], data[lo..m - 1];
    assert front == s[..lo] && rest == s[lo..m - 1];
    ShiftIn(data, lo, m, item);
    TakeShifted(s, lo, item, cap, m);
  }

  lemma TakeShifted(s: seq<Item>, lo: nat, item: Item, cap: nat, m: nat)
    requires lo <= |s| <= cap && lo < m && m == (if |s| < cap then |s| + 1 else |s|)
    ensures Take(s[..lo] + [item] + s[lo..], cap) == s[..lo] + [item] + s[lo..m - 1]
  {
    if |s| < cap {
      assert s[lo..m - 1] == s[lo..];
    }
  }

  // Both comparators rank item against a kept row the same way.
  predicate ComparatorAgrees(noNull: bool, item: Item, kept: Item, desc: bool) {
    ItemBefore(noNull, item, kept, desc) <==> Before(desc)(item, kept)
  }

  // On sorted rows, and where the comparators agree, the binary insertion is
  // the sorted insertion cut off at the capacity.
  lemma KeepRowIsInsert(kept: seq<Item>, item: Item, cap: nat, noNull: bool, desc: bool)
    requires |kept| <= cap && 0 < cap && Sorted(kept, Before(desc))
    requires forall i :: 0 <= i < |kept| ==> ComparatorAgrees(noNull, item, kept[i], desc)
    ensures KeepRow(kept, item, cap, noNull, desc) == Take(Insert(kept, item, Before(desc)), cap)
  {
    var p, lt := Ahead(noNull, item, desc), Before(desc);
    assert forall i :: 0 <= i < |kept| ==> p(kept[i]) == lt(item, kept[i]) by {
      assert forall i :: 0 <= i < |kept| ==> ComparatorAgrees(noNull, item, kept[i], desc);
    }
    BeforeIsWeakOrder(desc);
    KeepIsInsert(kept, item, cap, p, lt);
  }

  lemma KeepIsInsert(kept: seq<Item>, item: Item, cap: nat, p: Item -> bool, lt: (Item, Item) -> bool)
    requires |kept| <= cap && 0 < cap && WeakOrder(lt) && Sorted(kept, lt)
    requires forall i :: 0 <= i < |kept| ==> p(kept[i]) == lt(item, kept[i])
    ensures Take(Insert(kept, item, lt), cap) ==
      if |kept| == cap && !p(kept[|kept| - 1]) then kept
      else Take(kept[..Slot(kept, p, 0, |kept|)] + [item] + kept[Slot(kept, p, 0, |kept|)..], cap)
  {
    if |kept| == cap && !p(kept[|kept| - 1]) {
      assert (kept + [item])[..cap] == kept;
    } else {
      forall i, j | 0 <= i < j < |kept| && p(kept[i]) ensures p(kept[j]) {
        assert !lt(kept[j], kept[i]);
      }
      SlotSplits(kept, p, 0, |kept|);
      InsertAt(kept, item, lt, Slot(kept, p, 0, |kept|));
    }
  }

  // ----- when the two comparators differ -----

  // The fast comparator reads a kept null as key 0.
  lemma FastComparatorExact(item: Item, kept: Item, desc: bool)
    requires !item.isNull && kept.seqNo < item.seqNo && (kept.isNull ==> kept.key == 0)
    ensures ComparatorAgrees(true, item, kept, desc) <==>
      !kept.isNull || (if desc then item.key > 0 else item.key >= 0)
  {
  }

  // A full array of the best rows stays the best rows after a fast-path row
  // exactly when its last row is not null or the new key is on the right side of 0.
  lemma FastStepExact(kept: seq<Item>, item: Item, cap: nat, desc: bool)
    requires |kept| == cap && 0 < cap && Sorted(kept, Before(desc))
    requires !item.isNull && forall i :: 0 <= i < |kept| ==> kept[i].seqNo < item.seqNo && (kept[i].isNull ==> kept[i].key == 0)
    ensures multiset(KeepRow(kept, item, cap, true, desc)) == multiset(Take(Insert(kept, item, Before(desc)), cap))
      <==> !kept[cap - 1].isNull || (if desc then item.key > 0 else item.key >= 0)
  {
    FastComparatorExact(item, kept[cap - 1], desc);
    assert forall i :: 0 <= i < |kept| ==> kept[i] != item;
    StepOutcome(kept, item, cap, Ahead(true, item, desc), Before(desc));
  }

  // Whatever the comparator p, the outcome is right exactly when p and lt agree on the last row.
  lemma StepOutcome(kept: seq<Item>, item: Item, cap: nat, p: Item -> bool, lt: (Item, Item) -> bool)
    requires |kept| == cap && 0 < cap && item !in kept
    ensures var lo := Slot(kept, p, 0, cap);
            var r := if p(kept[cap - 1]) then Take(kept[..lo] + [item] + kept[lo..], cap) else kept;
            multiset(r) == multiset(Take(Insert(kept, item, lt), cap)) <==> (p(kept[cap - 1]) <==> lt(item, kept[cap - 1]))
  {
    EvictedBySort(kept, item, cap, lt);
    if p(kept[cap - 1]) { EvictedBySlot(kept, item, cap, p); }
    assert multiset(kept)[item] == 0;
    assert (multiset(kept) - multiset{kept[cap - 1]} + multiset{item})[item] == 1;
  }

  lemma EvictedBySort(kept: seq<Item>, item: Item, cap: nat, lt: (Item, Item) -> bool)
    requires |kept| == cap && 0 < cap
    ensures multiset(Take(Insert(kept, item, lt), cap)) ==
      if lt(item, kept[cap - 1]) then multiset(kept) - multiset{kept[cap - 1]} + multiset{item} else multiset(kept)
  {
    var last, front := kept[cap - 1], kept[..cap - 1];
    if lt(item, last) {
      DropLast(kept);
      InsertMultiset(front, item, lt);
      assert Take(Insert(front, item, lt) + [last], cap) == Insert(front, item, lt);
    } else {
      assert Take(kept + [item], cap) == kept;
    }
  }

  lemma EvictedBySlot(kept: seq<Item>, item: Item, cap: nat, p: Item -> bool)
    requires |kept| == cap && 0 < cap && p(kept[cap - 1])
    ensures var lo := Slot(kept, p, 0, cap);
      multiset(Take(kept[..lo] + [item] + kept[lo..], cap)) == multiset(kept) - multiset{kept[cap - 1]} + multiset{item}
  {
    var front := kept[..cap - 1];
    var lo := Slot(kept, p, 0, cap);
    DropLast(kept);
    hide Slot;
    assert Take(kept[..lo] + [item] + kept[lo..], cap) == front[..lo] + [item] + front[lo..];
    InsertedMultiset(front, lo, item);
  }

  lemma InsertedMultiset(s: seq<Item>, lo: nat, item: Item)
    requires lo <= |s|
    ensures multiset(s[..lo] + [item] + s[lo..]) == multiset(s) + multiset{item}
  {
    assert s == s[..lo] + s[lo..];
  }

  // ----- the heap -----

  function Parent(i: int): (p: int)
    requires i > 0
    ensures 0 <= p < i
  {
    (i - 1) / 2
  }

  // No row is weaker (later in the order) than its parent, except possibly at `skip`.
  ghost predicate HeapBut(s: seq<Item>, desc: bool, skip: int) {
    forall i :: 0 < i < |s| && i != skip ==> !Before(desc)(s[Parent(i)], s[i])
  }

  // The same, excepting the children of `skip`.
  ghost predicate HeapButBelow(s: seq<Item>, desc: bool, skip: int) {
    forall i :: 0 < i < |s| && Parent(i) != skip ==> !Before(desc)(s[Parent(i)], s[i])
  }

  // The children of i respect i's own parent.
  ghost predicate Bridged(s: seq<Item>, desc: bool, i: int) {
    0 < i < |s| ==> forall c :: 0 < c < |s| && Parent(c) == i ==> !Before(desc)(s[Parent(i)], s[c])
  }

  ghost predicate IsHeap(s: seq<Item>, desc: bool) {
    HeapBut(s, desc, -1)
  }

  lemma {:induction false} RootIsWeakest(s: seq<Item>, desc: bool, i: nat)
    requires IsHeap(s, desc) && i < |s|
    ensures !Before(desc)(s[0], s[i])
    decreases i
  {
    if i > 0 {
      RootIsWeakest(s, desc, Parent(i));
    }
  }

  lemma SwapMultiset(s: seq<Item>, i: nat, j: nat)
    requires i < |s| && j < |s|
    ensures multiset(s[i := s[j]][j := s[i]]) == multiset(s)
  {
  }

  lemma SwapUp(s: seq<Item>, desc: bool, i: nat)
    requires 0 < i < |s|
    requires HeapBut(s, desc, i) && Bridged(s, desc, i)
    requires Before(desc)(s[Parent(i)], s[i])
    ensures var r := s[i := s[Parent(i)]][Parent(i) := s[i]]; HeapBut(r, desc, Parent(i)) && Bridged(r, desc, Parent(i))
  {
    BeforeIsWeakOrder(desc);
    var p := Parent(i);
    var r := s[i := s[p]][p := s[i]];
    forall j | 0 < j < |r| && j != p ensures !Before(desc)(r[Parent(j)], r[j]) {
      if j != i && Parent(j) == p { assert !Before(desc)(s[p], s[j]); }
    }
    if p > 0 {
      forall c | 0 < c < |r| && Parent(c) == p ensures !Before(desc)(r[Parent(p)], r[c]) {
        assert !Before(desc)(s[Parent(p)], s[p]);
      }
    }
  }

  lemma SwapDown(s: seq<Item>, desc: bool, i: nat, j: nat)
    requires 0 < j < |s| && Parent(j) == i
    requires HeapButBelow(s, desc, i) && Bridged(s, desc, i)
    requires Before(desc)(s[i], s[j])
    requires forall c :: 0 < c < |s| && Parent(c) == i ==> !Before(desc)(s[j], s[c])
    ensures var r := s[i := s[j]][j := s[i]]; HeapButBelow(r, desc, j) && Bridged(r, desc, j)
  {
    BeforeIsWeakOrder(desc);
    var r := s[i := s[j]][j := s[i]];
    forall k | 0 < k < |r| && Parent(k) != j ensures !Before(desc)(r[Parent(k)], r[k]) {
      if k == i {
        assert !Before(desc)(s[Parent(i)], s[j]);
      }
    }
    forall c | 0 < c < |r| && Parent(c) == j ensures !Before(desc)(r[Parent(j)], r[c]) {
      assert !Before(desc)(s[j], s[c]);
    }
  }

  // j is the child of i that a sift down compares i with.
  lemma WeakestChild(s: seq<Item>, desc: bool, i: nat, j: nat)
    requires 2 * i + 1 <= j <= 2 * i + 2 && j < |s|
    requires j == 2 * i + 1 ==> 2 * i + 2 < |s| ==> !Before(desc)(s[j], s[2 * i + 2])
    requires j == 2 * i + 2 ==> Before(desc)(s[2 * i + 1], s[j])
    ensures Parent(j) == i
    ensures forall c :: 0 < c < |s| && Parent(c) == i ==> !Before(desc)(s[j], s[c])
    ensures HeapButBelow(s, desc, i) && !Before(desc)(s[i], s[j]) ==> IsHeap(s, desc)
  {
    BeforeIsWeakOrder(desc);
    forall c | 0 < c < |s| && Parent(c) == i ensures !Before(desc)(s[j], s[c]) {
      assert c == 2 * i + 1 || c == 2 * i + 2;
    }
  }

  class TopKRowHeap {
    var data: array<Item>
    var len: nat
    const desc: bool

    ghost predicate Valid()
      reads this, data
    {
      len <= data.Length && 0 < data.Length && IsHeap(data[..len], desc)
    }

    constructor (capN: nat, desc: bool)
      requires 0 < capN
      ensures Valid() && fresh(data) && data.Length == capN && len == 0 && this.desc == desc
    {
      data := new Item[capN](_ => Item(0, false, 0, 0, 0, 0));
      len := 0;
      this.desc := desc;
    }

    // data[i] is weaker than data[j].
    predicate Less(i: nat, j: nat)
      requires i < data.Length && j < data.Length
      reads this, data
    {
      CmpItem(data[i], data[j], desc) > 0
    }

    predicate Beats(c: Item, root: Item)
    {
      CmpItem(c, root, desc) < 0
    }

    method Swap(i: nat, j: nat)
      requires i < len && j < len <= data.Length
      modifies data
      ensures data[..len] == old(data[..len])[i := old(data[j])][j := old(data[i])]
      ensures multiset(data[..len]) == multiset(old(data[..len]))
    {
      SwapMultiset(data[..len], i, j);
      data[i], data[j] := data[j], data[i];
    }

    method SiftUp(start: nat)
      requires start < len <= data.Length
      requires HeapBut(data[..len], desc, start) && Bridged(data[..len], desc, start)
      modifies data
      ensures IsHeap(data[..len], desc)
      ensures multiset(data[..len]) == multiset(old(data[..len]))
    {
      var i := start;
      while i > 0
        invariant 0 <= i < len
        invariant HeapBut(data[..len], desc, i) && Bridged(data[..len], desc, i)
        invariant multiset(data[..len]) == multiset(old(data[..len]))
      {
        var parent := (i - 1) / 2;
        assert parent == Parent(i);
        if !Less(i, parent) {
          assert !Before(desc)(data[..len][Parent(i)], data[..len][i]);
          return;
        }
        SwapUp(data[..len], desc, i);
        Swap(i, parent);
        i := parent;
      }
    }

    // Compares i with its weaker child: returns -1 when i may stay, else the child to swap with.
    method ChildToSwap(i: nat) returns (j: int)
      requires i < len <= data.Length
      requires HeapButBelow(data[..len], desc, i)
      ensures j == -1 ==> IsHeap(data[..len], desc)
      ensures j != -1 ==>
        && 0 < j < len && Parent(j) == i && Before(desc)(data[i], data[j])
        && forall c :: 0 < c < len && Parent(c) == i ==> !Before(desc)(data[j], data[c])
    {
      ghost var s := data[..len];
      var l := 2 * i + 1;
      if l >= len {
        return -1;
      }
      j := l;
      var r := l + 1;
      if r < len && Less(r, l) {
        j := r;
      }
      WeakestChild(s, desc, i, j);
      if !Less(j, i) {
        return -1;
      }
      assert forall c :: 0 < c < len ==> data[c] == s[c];
    }

    method SiftDown(start: nat)
      requires start < len <= data.Length
      requires HeapButBelow(data[..len], desc, start) && Bridged(data[..len], desc, start)
      modifies data
      ensures IsHeap(data[..len], desc)
      ensures multiset(data[..len]) == multiset(old(data[..len]))
    {
      var i := start;
      while true
        invariant 0 <= i < len
        invariant HeapButBelow(data[..len], desc, i) && Bridged(data[..len], desc, i)
        invariant multiset(data[..len]) == multiset(old(data[..len]))
        decreases len - i
      {
        var j := ChildToSwap(i);
        if j == -1 {
          return;
        }
        ghost var s := data[..len];
        assert s[i] == data[i] && s[j] == data[j];
        SwapDown(s, desc, i, j);
        Swap(i, j);
        i := j;
      }
    }

    // One arriving row: kept if there is room or if it beats the weakest row kept.
    method Offer(item: Item)
      requires Valid()
      modifies this, data
      ensures Valid() && data == old(data)
      ensures old(len) < data.Length ==>
        len == old(len) + 1 && multiset(data[..len]) == multiset(old(data[..len])) + multiset{item}
      ensures old(len) == data.Length && Before(desc)(item, old(data[0])) ==>
        len == old(len) && multiset(data[..len]) == multiset(old(data[..len])) - multiset{old(data[0])} + multiset{item}
      ensures old(len) == data.Length && !Before(desc)(item, old(data[0])) ==>
        len == old(len) && data[..len] == old(data[..len])
    {
      ghost var s := data[..len];
      if len < data.Length {
        data[len] := item;
        len := len + 1;
        assert data[..len] == s + [item];
        SiftUp(len - 1);
        return;
      }
      if Beats(item, data[0]) {
        data[0] := item;
        assert s == [s[0]] + s[1..];
        assert data[..len] == [item] + s[1..];
        SiftDown(0);
      }
    }
  }

  // The root of a full heap is the last of the best rows, so replacing it
  // keeps exactly the best rows.
  lemma HeapStep(seen: seq<Item>, x: Item, n: nat, h: seq<Item>, h': seq<Item>, desc: bool)
    requires 0 < n && DistinctSeqNos(seen)
    requires multiset(h) == multiset(TopN(seen, n, Before(desc))) && IsHeap(h, desc)
    requires |h| < n ==> multiset(h') == multiset(h) + multiset{x}
    requires |h| == n && Before(desc)(x, h[0]) ==> multiset(h') == multiset(h) - multiset{h[0]} + multiset{x}
    requires |h| == n && !Before(desc)(x, h[0]) ==> h' == h
    ensures multiset(h') == multiset(TopN(seen + [x], n, Before(desc)))
  {
    var lt := Before(desc);
    BeforeIsWeakOrder(desc);
    TopNStep(seen, x, n, lt);
    var t := TopN(seen, n, lt);
    assert |h| == |multiset(h)| == |multiset(t)| == |t|;
    InsertMultiset(t, x, lt);
    if |h| >= n {
      FullHeapRoot(seen, n, h, desc);
      var t', last := t[..n - 1], t[n - 1];
      DropLast(t);
      InsertMultiset(t', x, lt);
      if lt(x, last) {
        assert Insert(t, x, lt) == Insert(t', x, lt) + [last];
        assert Take(Insert(t, x, lt), n) == Insert(t', x, lt);
      } else {
        assert Take(t + [x], n) == t;
      }
    }
  }

  lemma TakeMembers(s: seq<Item>, n: nat)
    ensures forall x :: x in Take(s, n) ==> x in s
  {
  }

  lemma TopNSorted(s: seq<Item>, cap: nat, lt: (Item, Item) -> bool)
    requires WeakOrder(lt)
    ensures Sorted(TopN(s, cap, lt), lt)
    ensures forall x :: x in TopN(s, cap, lt) ==> x in s
  {
    SortSorts(s, lt);
    SortMultiset(s, lt);
    MultisetMembers(Sort(s, lt), s);
    TakeMembers(Sort(s, lt), cap);
  }

  lemma FullHeapRoot(seen: seq<Item>, n: nat, h: seq<Item>, desc: bool)
    requires 0 < n && DistinctSeqNos(seen)
    requires multiset(h) == multiset(TopN(seen, n, Before(desc))) && IsHeap(h, desc)
    requires |h| == n
    ensures |TopN(seen, n, Before(desc))| == n
    ensures h[0] == TopN(seen, n, Before(desc))[n - 1]
  {
    hide TopN, IsHeap, WeakOrder;
    var lt := Before(desc);
    var t := TopN(seen, n, lt);
    assert |h| == |multiset(h)| == |multiset(t)| == |t|;
    BeforeIsWeakOrder(desc);
    MultisetMembers(h, t);
    TopNSorted(seen, n, lt);
    var last := t[n - 1];
    assert last in t && h[0] in h;
    assert last in h && h[0] in t;
    var i :| 0 <= i < |h| && h[i] == last;
    RootIsWeakest(h, desc, i);
    LastIsGreatest(t, h[0], lt);
    DistinctIsTieless(seen, desc);
  }
}
