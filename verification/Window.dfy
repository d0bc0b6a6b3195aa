// Window ranks over a stably sorted permutation, and the bounds of RANGE frames.
module Window {
  import opened Sorting

  // Rows are numbered in arrival order; part and ord say which of two rows has
  // the smaller partition key or order key.
  type Less = (nat, nat) -> bool

  predicate Differ(lt: Less, a: nat, b: nat) {
    lt(a, b) || lt(b, a)
  }

  // Partition first, then order.
  predicate ByPartitionThenOrder(part: Less, ord: Less, a: nat, b: nat) {
    part(a, b) || (!part(b, a) && ord(a, b))
  }

  // The same with arrival order as the last resort.
  predicate Precedes(part: Less, ord: Less, a: nat, b: nat) {
    ByPartitionThenOrder(part, ord, a, b) || (!ByPartitionThenOrder(part, ord, b, a) && a < b)
  }

  ghost predicate Orders(part: Less, ord: Less) {
    WeakOrder(part) && WeakOrder(ord)
  }

  predicate SamePartition(part: Less, a: nat, b: nat) { !Differ(part, a, b) }

  predicate Peers(part: Less, ord: Less, a: nat, b: nat) { !Differ(part, a, b) && !Differ(ord, a, b) }

  // ----- the definitions the ranks must meet -----

  // Rows of the partition that come before r, ties by arrival.
  function Earlier(part: Less, ord: Less, n: nat, r: nat): (s: set<nat>) {
    set x: nat | 0 <= x < n && SamePartition(part, x, r) && Precedes(part, ord, x, r)
  }

  // Rows of the partition with a smaller order key.
  function Lower(part: Less, ord: Less, n: nat, r: nat): (s: set<nat>) {
    set x: nat | 0 <= x < n && SamePartition(part, x, r) && ord(x, r)
  }

  // The first arrival of each smaller order key: one row a distinct key.
  function LowerKeys(part: Less, ord: Less, n: nat, r: nat): (s: set<nat>) {
    set x: nat | 0 <= x < n && SamePartition(part, x, r) && ord(x, r) && (forall y: nat :: y < x ==> !Peers(part, ord, y, x))
  }

  // ----- the stable sort -----

  function Iota(n: nat): (s: seq<nat>)
    ensures |s| == n && forall i :: 0 <= i < n ==> s[i] == i
  {
    seq<nat>(n, i requires 0 <= i < n => i)
  }

  function StableSort(n: nat, part: Less, ord: Less): (perm: seq<nat>) {
    Sort(Iota(n), (a: nat, b: nat) => ByPartitionThenOrder(part, ord, a, b))
  }

  // A permutation of the rows in strict order of precedence.
  ghost predicate Ranked(perm: seq<nat>, n: nat, part: Less, ord: Less) {
    && |perm| == n
    && (forall r: nat :: r < n <==> r in perm)
    && (forall i, j :: 0 <= i < j < |perm| ==> perm[i] != perm[j] && Precedes(part, ord, perm[i], perm[j]))
  }

  lemma ByIsWeak(part: Less, ord: Less)
    requires Orders(part, ord)
    ensures WeakOrder((a: nat, b: nat) => ByPartitionThenOrder(part, ord, a, b))
  {
  }

  lemma PrecedesIsWeak(part: Less, ord: Less, s: seq<nat>)
    requires Orders(part, ord)
    ensures WeakOrder((a: nat, b: nat) => Precedes(part, ord, a, b))
    ensures Tieless(s, (a: nat, b: nat) => Precedes(part, ord, a, b))
  {
    ByIsWeak(part, ord);
    var less := (a: nat, b: nat) => ByPartitionThenOrder(part, ord, a, b);
    hide ByPartitionThenOrder;
    assert forall a: nat, b: nat :: Precedes(part, ord, a, b) <==> less(a, b) || (!less(b, a) && a < b);
  }

  // Inserting a later arrival lands in the same place with and without the tie-break.
  lemma {:induction false} InsertStable(s: seq<nat>, x: nat, part: Less, ord: Less)
    requires forall i :: 0 <= i < |s| ==> s[i] < x
    ensures Insert(s, x, (a: nat, b: nat) => ByPartitionThenOrder(part, ord, a, b))
      == Insert(s, x, (a: nat, b: nat) => Precedes(part, ord, a, b))
  {
    hide ByPartitionThenOrder;
    if s != [] {
      InsertStable(s[..|s| - 1], x, part, ord);
    }
  }

  lemma {:induction false} SortStable(n: nat, part: Less, ord: Less)
    ensures StableSort(n, part, ord) == Sort(Iota(n), (a: nat, b: nat) => Precedes(part, ord, a, b))
  {
    hide ByPartitionThenOrder, Precedes;
    if n > 0 {
      SortStable(n - 1, part, ord);
      assert Iota(n)[..n - 1] == Iota(n - 1);
      var less := (a: nat, b: nat) => ByPartitionThenOrder(part, ord, a, b);
      var front := Sort(Iota(n - 1), less);
      SortMultiset(Iota(n - 1), less);
      MultisetMembers(front, Iota(n - 1));
      forall i | 0 <= i < |front| ensures front[i] < n - 1 {
        assert front[i] in front;
      }
      InsertStable(front, n - 1, part, ord);
    }
  }

  lemma {:induction false} IotaDistinct(n: nat)
    ensures forall x :: multiset(Iota(n))[x] <= 1
  {
    if n > 0 {
      IotaDistinct(n - 1);
      assert Iota(n) == Iota(n - 1) + [n - 1];
      assert n - 1 !in Iota(n - 1);
    }
  }

  lemma SortRanks(n: nat, part: Less, ord: Less)
    requires Orders(part, ord)
    ensures Ranked(StableSort(n, part, ord), n, part, ord)
  {
    hide Precedes, ByPartitionThenOrder, WeakOrder, Sorted, Tieless, StableSort, Sort;
    var perm, lt := StableSort(n, part, ord), (a: nat, b: nat) => Precedes(part, ord, a, b);
    PrecedesIsWeak(part, ord, perm);
    SortStable(n, part, ord);
    SortSorts(Iota(n), lt);
    SortMultiset(Iota(n), lt);
    IotaDistinct(n);
    StrictlySorted(perm, n, part, ord);
    SortedRows(perm, n);
  }

  lemma SortedRows(perm: seq<nat>, n: nat)
    requires multiset(perm) == multiset(Iota(n)) && |perm| == |Iota(n)|
    ensures |perm| == n && forall r: nat :: r < n <==> r in perm
  {
    MultisetMembers(perm, Iota(n));
    forall r: nat ensures r < n <==> r in perm {
      if r < n { assert Iota(n)[r] == r; }
    }
  }

  lemma StrictlySorted(perm: seq<nat>, n: nat, part: Less, ord: Less)
    requires Sorted(perm, (a: nat, b: nat) => Precedes(part, ord, a, b)) && Tieless(perm, (a: nat, b: nat) => Precedes(part, ord, a, b))
    requires multiset(perm) == multiset(Iota(n)) && forall x :: multiset(Iota(n))[x] <= 1
    ensures forall i, j :: 0 <= i < j < |perm| ==> perm[i] != perm[j] && Precedes(part, ord, perm[i], perm[j])
  {
    hide Precedes;
    var lt := (a: nat, b: nat) => Precedes(part, ord, a, b);
    forall i, j | 0 <= i < j < |perm| ensures perm[i] != perm[j] && Precedes(part, ord, perm[i], perm[j]) {
      assert multiset(Iota(n))[perm[i]] <= 1;
      if perm[i] == perm[j] { Twice(perm, i, j); }
      assert !lt(perm[j], perm[i]);
      assert perm[i] in perm && perm[j] in perm;
      assert lt(perm[i], perm[j]);
    }
  }

  lemma Twice(s: seq<nat>, i: nat, j: nat)
    requires i < j < |s| && s[i] == s[j]
    ensures multiset(s)[s[i]] >= 2
  {
    assert s == s[..j] + s[j..];
    assert s[..j][i] == s[i] && s[j..][0] == s[j];
    assert s[i] in s[..j] && s[i] in s[j..];
  }

  // ----- positions in the permutation -----

  // Where the partition of position i starts.
  function PartStart(perm: seq<nat>, part: Less, i: nat): (p: nat)
    requires i < |perm|
    ensures p <= i
  {
    if i == 0 || Differ(part, perm[i - 1], perm[i]) then i else PartStart(perm, part, i - 1)
  }

  // Where the peers of position i start.
  function PeerStart(perm: seq<nat>, part: Less, ord: Less, i: nat): (p: nat)
    requires i < |perm|
    ensures p <= i
  {
    if i == 0 || Differ(part, perm[i - 1], perm[i]) || Differ(ord, perm[i - 1], perm[i]) then i
    else PeerStart(perm, part, ord, i - 1)
  }

  // Order keys seen in the partition up to position i.
  function Keys(perm: seq<nat>, part: Less, ord: Less, i: nat): (k: nat)
    requires i < |perm|
  {
    if i == 0 || Differ(part, perm[i - 1], perm[i]) then 1
    else Keys(perm, part, ord, i - 1) + if Differ(ord, perm[i - 1], perm[i]) then 1 else 0
  }

  lemma SameIsEquivalence(lt: Less, a: nat, b: nat, c: nat)
    requires WeakOrder(lt)
    ensures !Differ(lt, a, b) && !Differ(lt, b, c) ==> !Differ(lt, a, c)
    ensures !Differ(lt, a, b) && lt(b, c) ==> lt(a, c)
    ensures lt(a, b) && !Differ(lt, b, c) ==> lt(a, c)
    ensures lt(a, b) && lt(b, c) ==> lt(a, c)
  {
  }

  // Partitions are contiguous: among the positions up to i, those in the
  // partition of i are the ones from its start on, and all others come before.
  lemma {:induction false} PartitionsAreRuns(perm: seq<nat>, n: nat, part: Less, ord: Less, k: nat, i: nat)
    requires Orders(part, ord) && Ranked(perm, n, part, ord) && k <= i < |perm|
    ensures k >= PartStart(perm, part, i) <==> SamePartition(part, perm[k], perm[i])
    ensures k < PartStart(perm, part, i) ==> part(perm[k], perm[i])
    decreases i
  {
    if k < i {
      PartitionsAreRuns(perm, n, part, ord, k, i - 1);
      assert Precedes(part, ord, perm[i - 1], perm[i]);
      SameIsEquivalence(part, perm[k], perm[i - 1], perm[i]);
    }
  }

  // So are peers within a partition, and whoever is before them has a smaller key.
  lemma {:induction false} PeersAreRuns(perm: seq<nat>, n: nat, part: Less, ord: Less, k: nat, i: nat)
    requires Orders(part, ord) && Ranked(perm, n, part, ord) && k <= i < |perm|
    ensures PartStart(perm, part, i) <= PeerStart(perm, part, ord, i)
    ensures k >= PeerStart(perm, part, ord, i) <==> Peers(part, ord, perm[k], perm[i])
    ensures PartStart(perm, part, i) <= k < PeerStart(perm, part, ord, i) ==> ord(perm[k], perm[i])
    decreases i
  {
    PartitionsAreRuns(perm, n, part, ord, k, i);
    if i > 0 {
      PeersAreRuns(perm, n, part, ord, if k < i then k else i - 1, i - 1);
      assert Precedes(part, ord, perm[i - 1], perm[i]);
      if k < i { SameIsEquivalence(ord, perm[k], perm[i - 1], perm[i]); }
    }
  }

  // ----- positions and definitions -----

  // The rows at positions lo .. hi - 1.
  function Between(perm: seq<nat>, lo: nat, hi: nat): (s: set<nat>)
    requires lo <= hi <= |perm|
  {
    set k | lo <= k < hi :: perm[k]
  }

  lemma {:induction false} BetweenSize(perm: seq<nat>, lo: nat, hi: nat)
    requires lo <= hi <= |perm| && forall i, j :: 0 <= i < j < |perm| ==> perm[i] != perm[j]
    ensures |Between(perm, lo, hi)| == hi - lo
  {
    if lo < hi {
      BetweenSize(perm, lo, hi - 1);
      assert Between(perm, lo, hi) == Between(perm, lo, hi - 1) + {perm[hi - 1]};
      assert perm[hi - 1] !in Between(perm, lo, hi - 1);
    }
  }

  // Being before in the permutation is preceding.
  lemma PositionsPrecede(perm: seq<nat>, n: nat, part: Less, ord: Less, k: nat, i: nat)
    requires Orders(part, ord) && Ranked(perm, n, part, ord) && k < |perm| && i < |perm|
    ensures Precedes(part, ord, perm[k], perm[i]) <==> k < i
  {
    PrecedesIsWeak(part, ord, perm);
    var lt := (a: nat, b: nat) => Precedes(part, ord, a, b);
    hide Precedes;
    assert lt(perm[k], perm[i]) == Precedes(part, ord, perm[k], perm[i]) && lt(perm[i], perm[k]) == Precedes(part, ord, perm[i], perm[k]);
    assert !(lt(perm[i], perm[k]) && lt(perm[k], perm[i]));
  }

  lemma RowNumberIs(perm: seq<nat>, n: nat, part: Less, ord: Less, i: nat)
    requires Orders(part, ord) && Ranked(perm, n, part, ord) && i < |perm|
    ensures Earlier(part, ord, n, perm[i]) == Between(perm, PartStart(perm, part, i), i)
    ensures |Earlier(part, ord, n, perm[i])| == i - PartStart(perm, part, i)
  {
    hide Precedes, PartStart;
    var ps := PartStart(perm, part, i);
    forall x: nat ensures x in Earlier(part, ord, n, perm[i]) <==> x in Between(perm, ps, i) {
      if x < n {
        assert x in perm;
        var k :| 0 <= k < |perm| && perm[k] == x;
        PositionsPrecede(perm, n, part, ord, k, i);
        if k <= i { PartitionsAreRuns(perm, n, part, ord, k, i); }
        if x in Between(perm, ps, i) {
          var m :| ps <= m < i && perm[m] == x;
          assert m == k;
        }
      }
      if x in Between(perm, ps, i) {
        var m :| ps <= m < i && perm[m] == x;
        assert x in perm;
      }
    }
    BetweenSize(perm, ps, i);
  }

  lemma RankIs(perm: seq<nat>, n: nat, part: Less, ord: Less, i: nat)
    requires Orders(part, ord) && Ranked(perm, n, part, ord) && i < |perm|
    ensures PartStart(perm, part, i) <= PeerStart(perm, part, ord, i)
    ensures Lower(part, ord, n, perm[i]) == Between(perm, PartStart(perm, part, i), PeerStart(perm, part, ord, i))
    ensures |Lower(part, ord, n, perm[i])| == PeerStart(perm, part, ord, i) - PartStart(perm, part, i)
  {
    hide PartStart, PeerStart;
    PeersAreRuns(perm, n, part, ord, i, i);
    var ps, es := PartStart(perm, part, i), PeerStart(perm, part, ord, i);
    forall x: nat ensures x in Lower(part, ord, n, perm[i]) <==> x in Between(perm, ps, es) {
      if x < n {
        assert x in perm;
        var k :| 0 <= k < |perm| && perm[k] == x;
        LowerIsBefore(perm, n, part, ord, k, i);
        if x in Between(perm, ps, es) {
          var m :| ps <= m < es && perm[m] == x;
          assert m == k;
        }
      }
      if x in Between(perm, ps, es) {
        var m :| ps <= m < es && perm[m] == x;
        assert x in perm;
      }
    }
    BetweenSize(perm, ps, es);
  }

  // A row of the partition has a smaller key exactly when it stands before the peers.
  lemma LowerIsBefore(perm: seq<nat>, n: nat, part: Less, ord: Less, k: nat, i: nat)
    requires Orders(part, ord) && Ranked(perm, n, part, ord) && k < |perm| && i < |perm|
    ensures SamePartition(part, perm[k], perm[i]) && ord(perm[k], perm[i])
      <==> PartStart(perm, part, i) <= k < PeerStart(perm, part, ord, i)
  {
    hide PartStart, PeerStart;
    if k <= i {
      PartitionsAreRuns(perm, n, part, ord, k, i);
      PeersAreRuns(perm, n, part, ord, k, i);
    } else {
      assert Precedes(part, ord, perm[i], perm[k]);
      PeersAreRuns(perm, n, part, ord, i, i);
    }
  }

  // ----- dense ranks -----

  // The positions in the partition, before position i's peers, at which a new order key starts.
  function KeyPositions(perm: seq<nat>, part: Less, ord: Less, i: nat): (s: set<nat>)
    requires i < |perm|
  {
    set k: nat | PartStart(perm, part, i) <= k < PeerStart(perm, part, ord, i) && k < |perm| && PeerStart(perm, part, ord, k) == k
  }

  lemma KeysStart(perm: seq<nat>, part: Less, ord: Less, i: nat)
    requires i < |perm| && (i == 0 || Differ(part, perm[i - 1], perm[i]))
    ensures KeyPositions(perm, part, ord, i) == {}
  {
  }

  lemma KeysStay(perm: seq<nat>, part: Less, ord: Less, i: nat)
    requires 0 < i < |perm| && !Differ(part, perm[i - 1], perm[i]) && !Differ(ord, perm[i - 1], perm[i])
    ensures KeyPositions(perm, part, ord, i) == KeyPositions(perm, part, ord, i - 1)
  {
  }

  lemma KeysGrow(perm: seq<nat>, n: nat, part: Less, ord: Less, i: nat)
    requires Orders(part, ord) && Ranked(perm, n, part, ord) && 0 < i < |perm|
    requires !Differ(part, perm[i - 1], perm[i]) && Differ(ord, perm[i - 1], perm[i])
    ensures var es := PeerStart(perm, part, ord, i - 1);
      KeyPositions(perm, part, ord, i) == KeyPositions(perm, part, ord, i - 1) + {es} && es !in KeyPositions(perm, part, ord, i - 1)
  {
    hide Ranked, Orders, Differ;
    var ps, es := PartStart(perm, part, i - 1), PeerStart(perm, part, ord, i - 1);
    PeersAreRuns(perm, n, part, ord, i - 1, i - 1);
    PeerStartIsStart(perm, part, ord, i - 1);
    NoKeyInside(perm, n, part, ord, i - 1);
    assert PartStart(perm, part, i) == ps && PeerStart(perm, part, ord, i) == i;
    hide PartStart, PeerStart;
    forall k: nat ensures k in KeyPositions(perm, part, ord, i) <==> k in KeyPositions(perm, part, ord, i - 1) + {es} {
      if ps <= k < i && es < k { assert PeerStart(perm, part, ord, k) != k; }
    }
  }

  lemma {:induction false} KeyCount(perm: seq<nat>, n: nat, part: Less, ord: Less, i: nat)
    requires Orders(part, ord) && Ranked(perm, n, part, ord) && i < |perm|
    ensures |KeyPositions(perm, part, ord, i)| + 1 == Keys(perm, part, ord, i)
  {
    hide Ranked, KeyPositions;
    if i == 0 || Differ(part, perm[i - 1], perm[i]) {
      KeysStart(perm, part, ord, i);
    } else {
      KeyCount(perm, n, part, ord, i - 1);
      if Differ(ord, perm[i - 1], perm[i]) {
        KeysGrow(perm, n, part, ord, i);
      } else {
        KeysStay(perm, part, ord, i);
      }
    }
  }

  lemma {:induction false} PeerStartIsStart(perm: seq<nat>, part: Less, ord: Less, i: nat)
    requires i < |perm|
    ensures PeerStart(perm, part, ord, PeerStart(perm, part, ord, i)) == PeerStart(perm, part, ord, i)
  {
    if PeerStart(perm, part, ord, i) != i { PeerStartIsStart(perm, part, ord, i - 1); }
  }

  lemma {:induction false} NoKeyInside(perm: seq<nat>, n: nat, part: Less, ord: Less, i: nat)
    requires Orders(part, ord) && Ranked(perm, n, part, ord) && i < |perm|
    ensures forall k :: PeerStart(perm, part, ord, i) < k <= i ==> PeerStart(perm, part, ord, k) != k
  {
    hide Ranked;
    if PeerStart(perm, part, ord, i) != i { NoKeyInside(perm, n, part, ord, i - 1); }
  }

  // A position starts its peers exactly when its row is their first arrival.
  lemma FirstArrival(perm: seq<nat>, n: nat, part: Less, ord: Less, k: nat)
    requires Orders(part, ord) && Ranked(perm, n, part, ord) && k < |perm|
    ensures PeerStart(perm, part, ord, k) == k <==> forall y: nat :: y < perm[k] ==> !Peers(part, ord, y, perm[k])
  {
    hide PeerStart;
    PeersAreRuns(perm, n, part, ord, k, k);
    if PeerStart(perm, part, ord, k) < k {
      var m := PeerStart(perm, part, ord, k);
      PeersAreRuns(perm, n, part, ord, m, k);
      assert Precedes(part, ord, perm[m], perm[k]);
      assert perm[m] < perm[k] && Peers(part, ord, perm[m], perm[k]);
    } else {
      forall y: nat | y < perm[k] ensures !Peers(part, ord, y, perm[k]) {
        assert perm[k] in perm && perm[k] < n;
        assert y in perm;
        var m :| 0 <= m < |perm| && perm[m] == y;
        if m < k {
          PeersAreRuns(perm, n, part, ord, m, k);
        } else {
          assert Precedes(part, ord, perm[k], perm[m]);
        }
      }
    }
  }

  lemma LowerKeyAt(perm: seq<nat>, n: nat, part: Less, ord: Less, k: nat, i: nat)
    requires Orders(part, ord) && Ranked(perm, n, part, ord) && k < |perm| && i < |perm|
    ensures perm[k] in LowerKeys(part, ord, n, perm[i]) <==> k in KeyPositions(perm, part, ord, i)
  {
    hide PartStart, PeerStart, Precedes;
    LowerIsBefore(perm, n, part, ord, k, i);
    FirstArrival(perm, n, part, ord, k);
    assert perm[k] in perm;
  }

  function RowsAt(perm: seq<nat>, ks: set<nat>): (s: set<nat>) {
    set k | k in ks && k < |perm| :: perm[k]
  }

  lemma {:induction false} RowsAtSize(perm: seq<nat>, ks: set<nat>)
    requires forall k :: k in ks ==> k < |perm|
    requires forall i, j :: 0 <= i < j < |perm| ==> perm[i] != perm[j]
    ensures |RowsAt(perm, ks)| == |ks|
  {
    if ks != {} {
      var k :| k in ks;
      RowsAtSize(perm, ks - {k});
      assert RowsAt(perm, ks) == RowsAt(perm, ks - {k}) + {perm[k]};
      assert perm[k] !in RowsAt(perm, ks - {k});
    }
  }

  lemma DenseRankIs(perm: seq<nat>, n: nat, part: Less, ord: Less, i: nat)
    requires Orders(part, ord) && Ranked(perm, n, part, ord) && i < |perm|
    ensures |LowerKeys(part, ord, n, perm[i])| + 1 == Keys(perm, part, ord, i)
  {
    hide PartStart, PeerStart, Keys, Precedes;
    KeyCount(perm, n, part, ord, i);
    var ks := KeyPositions(perm, part, ord, i);
    RowsAtSize(perm, ks);
    forall x: nat ensures x in LowerKeys(part, ord, n, perm[i]) <==> x in RowsAt(perm, ks) {
      if x in LowerKeys(part, ord, n, perm[i]) {
        assert x in perm;
        var k :| 0 <= k < |perm| && perm[k] == x;
        LowerKeyAt(perm, n, part, ord, k, i);
      }
      if x in RowsAt(perm, ks) {
        var k :| k in ks && k < |perm| && perm[k] == x;
        LowerKeyAt(perm, n, part, ord, k, i);
      }
    }
    assert LowerKeys(part, ord, n, perm[i]) == RowsAt(perm, ks);
  }

  // ----- the rank loops -----

  datatype RankFunc = RowNumber | Rank | DenseRank

  function RankOf(f: RankFunc, part: Less, ord: Less, n: nat, r: nat): nat {
    match f
    case RowNumber => 1 + |Earlier(part, ord, n, r)|
    case Rank => 1 + |Lower(part, ord, n, r)|
    case DenseRank => 1 + |LowerKeys(part, ord, n, r)|
  }

  // The value a walk over the permutation reaches at position i.
  function Walked(f: RankFunc, perm: seq<nat>, part: Less, ord: Less, i: nat): int
    requires i < |perm|
  {
    match f
    case RowNumber => i - PartStart(perm, part, i) + 1
    case Rank => PeerStart(perm, part, ord, i) - PartStart(perm, part, i) + 1
    case DenseRank => Keys(perm, part, ord, i)
  }

  lemma WalkedIsRank(f: RankFunc, perm: seq<nat>, n: nat, part: Less, ord: Less, i: nat)
    requires Orders(part, ord) && Ranked(perm, n, part, ord) && i < |perm|
    ensures Walked(f, perm, part, ord, i) == RankOf(f, part, ord, n, perm[i])
  {
    hide PartStart, PeerStart, Keys, Earlier, Lower, LowerKeys;
    match f {
      case RowNumber => RowNumberIs(perm, n, part, ord, i);
      case Rank => RankIs(perm, n, part, ord, i);
      case DenseRank => DenseRankIs(perm, n, part, ord, i);
    }
  }

  // The column holds the walked values of the first i positions at their rows.
  ghost predicate Scattered(f: RankFunc, col: seq<int>, perm: seq<nat>, part: Less, ord: Less, i: nat) {
    i <= |perm| && forall k :: 0 <= k < i ==> perm[k] < |col| && col[perm[k]] == Walked(f, perm, part, ord, k)
  }

  lemma ScatterStep(f: RankFunc, col: seq<int>, perm: seq<nat>, n: nat, part: Less, ord: Less, i: nat, v: int)
    requires Ranked(perm, n, part, ord) && |col| == n && i < |perm| && Scattered(f, col, perm, part, ord, i)
    requires v == Walked(f, perm, part, ord, i)
    ensures perm[i] < n && Scattered(f, col[perm[i] := v], perm, part, ord, i + 1)
  {
    hide Walked, Precedes;
    assert perm[i] in perm;
  }

  lemma NothingScattered(f: RankFunc, col: seq<int>, perm: seq<nat>, part: Less, ord: Less)
    ensures Scattered(f, col, perm, part, ord, 0)
  {
  }

  method ScatterRowNumbers(perm: seq<nat>, n: nat, part: Less, ord: Less, col: array<int>)
    requires Ranked(perm, n, part, ord) && col.Length == n
    modifies col
    ensures Scattered(RowNumber, col[..], perm, part, ord, n)
  {
    hide Scattered, Ranked;
    assert |perm| == n by { RowCount(perm, n, part, ord); }
    NothingScattered(RowNumber, col[..], perm, part, ord);
    var rank := 0;
    for i := 0 to |perm|
      invariant Scattered(RowNumber, col[..], perm, part, ord, i)
      invariant rank == if i > 0 then Walked(RowNumber, perm, part, ord, i - 1) else 0
    {
      if i > 0 && Differ(part, perm[i - 1], perm[i]) {
        rank := 0;
      }
      rank := rank + 1;
      ScatterStep(RowNumber, col[..], perm, n, part, ord, i, rank);
      ghost var before := col[..];
      col[perm[i]] := rank;
      assert col[..] == before[perm[i] := rank];
    }
  }

  lemma RowCount(perm: seq<nat>, n: nat, part: Less, ord: Less)
    requires Ranked(perm, n, part, ord)
    ensures |perm| == n
  {
  }

  method ScatterRanks(perm: seq<nat>, n: nat, part: Less, ord: Less, col: array<int>)
    requires Ranked(perm, n, part, ord) && col.Length == n
    modifies col
    ensures Scattered(Rank, col[..], perm, part, ord, n)
  {
    hide Scattered, Ranked;
    assert |perm| == n by { RowCount(perm, n, part, ord); }
    NothingScattered(Rank, col[..], perm, part, ord);
    var rank, peerCount := 0, 0;
    for i := 0 to |perm|
      invariant Scattered(Rank, col[..], perm, part, ord, i)
      invariant i > 0 ==> rank == Walked(Rank, perm, part, ord, i - 1) && peerCount == i - PeerStart(perm, part, ord, i - 1)
    {
      if i == 0 || Differ(part, perm[i - 1], perm[i]) {
        rank := 1;
        peerCount := 1;
      } else if Differ(ord, perm[i - 1], perm[i]) {
        rank := rank + peerCount;
        peerCount := 1;
      } else {
        peerCount := peerCount + 1;
      }
      ScatterStep(Rank, col[..], perm, n, part, ord, i, rank);
      ghost var before := col[..];
      col[perm[i]] := rank;
      assert col[..] == before[perm[i] := rank];
    }
  }

  method ScatterDenseRanks(perm: seq<nat>, n: nat, part: Less, ord: Less, col: array<int>)
    requires Ranked(perm, n, part, ord) && col.Length == n
    modifies col
    ensures Scattered(DenseRank, col[..], perm, part, ord, n)
  {
    hide Scattered, Ranked;
    assert |perm| == n by { RowCount(perm, n, part, ord); }
    NothingScattered(DenseRank, col[..], perm, part, ord);
    var rank := 0;
    for i := 0 to |perm|
      invariant Scattered(DenseRank, col[..], perm, part, ord, i)
      invariant i > 0 ==> rank == Walked(DenseRank, perm, part, ord, i - 1)
    {
      if i == 0 || Differ(part, perm[i - 1], perm[i]) {
        rank := 1;
      } else if Differ(ord, perm[i - 1], perm[i]) {
        rank := rank + 1;
      }
      ScatterStep(DenseRank, col[..], perm, n, part, ord, i, rank);
      ghost var before := col[..];
      col[perm[i]] := rank;
      assert col[..] == before[perm[i] := rank];
    }
  }

  // Every row gets the rank its definition gives it.
  method ComputeRankLike(f: RankFunc, n: nat, part: Less, ord: Less, col: array<int>)
    requires Orders(part, ord) && col.Length == n
    modifies col
    ensures forall r :: 0 <= r < n ==> col[r] == RankOf(f, part, ord, n, r)
  {
    hide Orders, Ranked, RankOf, Scattered, StableSort;
    var perm := StableSort(n, part, ord);
    SortRanks(n, part, ord);
    match f {
      case RowNumber => ScatterRowNumbers(perm, n, part, ord, col);
      case Rank => ScatterRanks(perm, n, part, ord, col);
      case DenseRank => ScatterDenseRanks(perm, n, part, ord, col);
    }
    AllRanked(f, col[..], perm, n, part, ord);
  }

  lemma AllRanked(f: RankFunc, col: seq<int>, perm: seq<nat>, n: nat, part: Less, ord: Less)
    requires Orders(part, ord) && Ranked(perm, n, part, ord) && |col| == n && Scattered(f, col, perm, part, ord, n)
    ensures forall r: nat :: r < n ==> col[r] == RankOf(f, part, ord, n, r)
  {
    hide Orders, RankOf, Walked, Precedes;
    forall r: nat | r < n ensures col[r] == RankOf(f, part, ord, n, r) {
      assert r in perm;
      var k :| 0 <= k < |perm| && perm[k] == r;
      WalkedIsRank(f, perm, n, part, ord, k);
    }
  }

  // Row numbers of a partition are exactly 1 to its size, each once.
  lemma RowNumbersAreABijection(part: Less, ord: Less, n: nat, r: nat, m: nat)
    requires Orders(part, ord) && r < n
    requires 1 <= m <= |set x: nat | 0 <= x < n && SamePartition(part, x, r)|
    ensures exists q: nat :: q < n && SamePartition(part, q, r) && RankOf(RowNumber, part, ord, n, q) == m
  {
    hide Precedes, StableSort, PartStart, Earlier;
    var perm := StableSort(n, part, ord);
    SortRanks(n, part, ord);
    assert r in perm;
    var i :| 0 <= i < |perm| && perm[i] == r;
    var ps := PartStart(perm, part, i);
    var mates := set x: nat | 0 <= x < n && SamePartition(part, x, r);
    MatesStandFrom(perm, n, part, ord, i, mates);
    if ps + m - 1 >= |perm| {
      BetweenSize(perm, ps, |perm|);
      SubsetSize(mates, Between(perm, ps, |perm|));
    }
    var k := ps + m - 1;
    MateAt(perm, n, part, ord, i, k, m, mates);
    RowNumberIs(perm, n, part, ord, k);
    assert perm[k] in perm;
  }

  lemma SubsetSize(a: set<nat>, b: set<nat>)
    requires a <= b
    ensures |a| <= |b|
  {
    assert b == a + (b - a);
  }

  lemma MatesStandFrom(perm: seq<nat>, n: nat, part: Less, ord: Less, i: nat, mates: set<nat>)
    requires Orders(part, ord) && Ranked(perm, n, part, ord) && i < |perm|
    requires mates == set x: nat | 0 <= x < n && SamePartition(part, x, perm[i])
    ensures mates <= Between(perm, PartStart(perm, part, i), |perm|)
  {
    hide Precedes, PartStart;
    forall x: nat | x in mates ensures x in Between(perm, PartStart(perm, part, i), |perm|) {
      assert x in perm;
      var k :| 0 <= k < |perm| && perm[k] == x;
      if k <= i { PartitionsAreRuns(perm, n, part, ord, k, i); }
    }
  }

  // The m-th position of the partition belongs to it, as long as it has m rows.
  lemma MateAt(perm: seq<nat>, n: nat, part: Less, ord: Less, i: nat, k: nat, m: nat, mates: set<nat>)
    requires Orders(part, ord) && Ranked(perm, n, part, ord) && i < |perm| && 1 <= m <= |mates|
    requires mates == set x: nat | 0 <= x < n && SamePartition(part, x, perm[i])
    requires k == PartStart(perm, part, i) + m - 1 < |perm|
    ensures SamePartition(part, perm[k], perm[i]) && PartStart(perm, part, k) == PartStart(perm, part, i)
  {
    hide Precedes;
    var ps := PartStart(perm, part, i);
    if !SamePartition(part, perm[k], perm[i]) {
      MatesStandFrom(perm, n, part, ord, i, mates);
      forall x: nat | x in mates ensures x in Between(perm, ps, k) {
        var j :| ps <= j < |perm| && perm[j] == x;
        if j >= k { Sandwiched(perm, n, part, ord, ps, k, j, i); }
      }
      BetweenSize(perm, ps, k);
      SubsetSize(mates, Between(perm, ps, k));
    } else {
      SameStart(perm, n, part, ord, i, k);
    }
  }

  lemma Sandwiched(perm: seq<nat>, n: nat, part: Less, ord: Less, a: nat, k: nat, j: nat, i: nat)
    requires Orders(part, ord) && Ranked(perm, n, part, ord) && i < |perm| && a == PartStart(perm, part, i) && a <= k <= j < |perm|
    requires SamePartition(part, perm[j], perm[i])
    ensures SamePartition(part, perm[k], perm[i])
  {
    hide PartStart;
    PartitionsAreRuns(perm, n, part, ord, a, i);
    if a < k && k < j {
      assert Precedes(part, ord, perm[a], perm[k]) && Precedes(part, ord, perm[k], perm[j]);
    }
  }

  lemma SameStart(perm: seq<nat>, n: nat, part: Less, ord: Less, i: nat, k: nat)
    requires Orders(part, ord) && Ranked(perm, n, part, ord) && i < |perm| && k < |perm|
    requires SamePartition(part, perm[k], perm[i])
    ensures PartStart(perm, part, k) == PartStart(perm, part, i)
  {
    hide PartStart, Precedes;
    var a, b := PartStart(perm, part, i), PartStart(perm, part, k);
    PartitionsAreRuns(perm, n, part, ord, a, i);
    PartitionsAreRuns(perm, n, part, ord, b, k);
    if a <= k { PartitionsAreRuns(perm, n, part, ord, a, k); }
    if b <= i { PartitionsAreRuns(perm, n, part, ord, b, i); }
    if k <= i { PartitionsAreRuns(perm, n, part, ord, k, i); } else { PartitionsAreRuns(perm, n, part, ord, i, k); }
  }

  // ----- RANGE frames -----

  // A bound of a frame: none, the current row's peers, or a distance from its order value.
  datatype Bound = Unbounded | Current | Distance(d: int)

  // Order values of a partition, ascending or descending.
  predicate Ordered(values: seq<real>, desc: bool) {
    forall i, j :: 0 <= i <= j < |values| ==> if desc then values[i] >= values[j] else values[i] <= values[j]
  }

  // Not before the start bound.
  predicate AfterStart(start: Bound, pivot: real, v: real, desc: bool) {
    match start
    case Unbounded => true
    case Current => if desc then v <= pivot else v >= pivot
    case Distance(d) => if desc then v <= pivot + d as real else v >= pivot - d as real
  }

  // Not after the end bound.
  predicate BeforeEnd(end: Bound, pivot: real, v: real, desc: bool) {
    match end
    case Unbounded => true
    case Current => if desc then v >= pivot else v <= pivot
    case Distance(d) => if desc then v >= pivot - d as real else v <= pivot + d as real
  }

  // How far row k comes before row i in the order of the window; negative when it comes after.
  function Lead(values: seq<real>, i: nat, k: nat, desc: bool): real
    requires i < |values| && k < |values|
  {
    if desc then values[k] - values[i] else values[i] - values[k]
  }

  // A row that far out is still inside the bound; the peers of a row are no distance away.
  predicate Within(b: Bound, lead: real) {
    match b
    case Unbounded => true
    case Current => lead <= 0.0
    case Distance(d) => lead <= d as real
  }

  // The first position inside the start bound.
  method FrameStart(start: Bound, values: seq<real>, i: nat, desc: bool) returns (lo: nat)
    requires i < |values| && Ordered(values, desc)
    ensures lo <= |values| && forall k :: 0 <= k < |values| ==> (k >= lo <==> AfterStart(start, values[i], values[k], desc))
  {
    var pivot := values[i];
    lo := 0;
    match start {
      case Unbounded =>
      case Current =>
        lo := i;
        while lo > 0 && values[lo - 1] == pivot
          invariant lo <= i && values[lo] == pivot
        {
          lo := lo - 1;
        }
      case Distance(d) =>
        var thresh := if desc then pivot + d as real else pivot - d as real;
        while lo < |values| && (if desc then values[lo] > thresh else values[lo] < thresh)
          invariant lo <= |values|
          invariant forall k :: 0 <= k < lo ==> if desc then values[k] > thresh else values[k] < thresh
        {
          lo := lo + 1;
        }
    }
  }

  // The last position inside the end bound, or -1.
  method FrameEnd(end: Bound, values: seq<real>, i: nat, desc: bool) returns (hi: int)
    requires i < |values| && Ordered(values, desc)
    ensures -1 <= hi < |values| && forall k :: 0 <= k < |values| ==> (k <= hi <==> BeforeEnd(end, values[i], values[k], desc))
  {
    var pivot := values[i];
    hi := |values| - 1;
    match end {
      case Unbounded =>
      case Current =>
        hi := i;
        while hi + 1 < |values| && values[hi + 1] == pivot
          invariant i <= hi < |values| && values[hi] == pivot
        {
          hi := hi + 1;
        }
      case Distance(d) =>
        var thresh := if desc then pivot - d as real else pivot + d as real;
        while hi >= 0 && (if desc then values[hi] < thresh else values[hi] > thresh)
          invariant -1 <= hi < |values|
          invariant forall k :: hi < k < |values| ==> if desc then values[k] < thresh else values[k] > thresh
        {
          hi := hi - 1;
        }
    }
  }

  // The frame of a row is exactly the rows of its partition whose order values
  // lie between its bounds, in either direction, peers included.
  method RangeFrameBounds(start: Bound, end: Bound, values: seq<real>, i: nat, desc: bool) returns (lo: nat, hi: int)
    requires i < |values| && Ordered(values, desc)
    ensures lo <= |values| && -1 <= hi < |values|
    ensures forall k :: 0 <= k < |values| ==>
      (lo <= k <= hi <==> AfterStart(start, values[i], values[k], desc) && BeforeEnd(end, values[i], values[k], desc))
    ensures forall k :: 0 <= k < |values| ==>
      (lo <= k <= hi <==> Within(start, Lead(values, i, k, desc)) && Within(end, -Lead(values, i, k, desc)))
  {
    lo := FrameStart(start, values, i, desc);
    hi := FrameEnd(end, values, i, desc);
  }
}
