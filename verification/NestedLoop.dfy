// The nested-loop join: the reference for the hash join, and what its output is.
module NestedLoops {
  import opened Options
  import opened JoinKeys

  datatype JoinKind = Inner | LeftOuter | RightOuter | FullOuter {
    predicate KeepsLeft() { LeftOuter? || FullOuter? }
    predicate KeepsRight() { RightOuter? || FullOuter? }
  }

  // keys[i] is the join key of row i; sel[i] says the row is selected.
  datatype Batch = Batch(keys: seq<seq<KeyVal>>, sel: seq<bool>) {
    ghost predicate Valid() {
      |sel| == |keys| && forall i :: 0 <= i < |keys| ==> ValidKey(keys[i])
    }
  }

  datatype RowRef = RowRef(batch: nat, row: nat)

  // An output row: the columns copied from each side, None standing for a null fill.
  datatype OutRow = OutRow(left: Option<RowRef>, right: Option<RowRef>)

  // ----- the reference: a nested loop over the selected rows -----

  datatype KeyedRow = KeyedRow(ref: RowRef, key: seq<KeyVal>)

  function BatchRows(bs: seq<Batch>, b: nat, n: nat): (rows: seq<KeyedRow>)
    requires b < |bs| && bs[b].Valid() && n <= |bs[b].keys|
  {
    if n == 0 then []
    else if bs[b].sel[n - 1] then BatchRows(bs, b, n - 1) + [KeyedRow(RowRef(b, n - 1), bs[b].keys[n - 1])]
    else BatchRows(bs, b, n - 1)
  }

  ghost predicate AllValid(bs: seq<Batch>) {
    forall b :: 0 <= b < |bs| ==> bs[b].Valid()
  }

  // The selected rows of the first n batches: all the join sees of how rows are batched.
  function Rows(bs: seq<Batch>, n: nat): (rows: seq<KeyedRow>)
    requires AllValid(bs) && n <= |bs|
  {
    if n == 0 then [] else Rows(bs, n - 1) + BatchRows(bs, n - 1, |bs[n - 1].keys|)
  }

  // The right rows that match key, in order.
  function Matches(right: seq<KeyedRow>, key: seq<KeyVal>): (refs: seq<RowRef>) {
    if right == [] then []
    else
      var n := |right| - 1;
      if KeysMatch(key, right[n].key) then Matches(right[..n], key) + [right[n].ref] else Matches(right[..n], key)
  }

  function Pairs(l: RowRef, refs: seq<RowRef>): (out: seq<OutRow>)
    ensures |out| == |refs|
  {
    seq(|refs|, i requires 0 <= i < |refs| => OutRow(Some(l), Some(refs[i])))
  }

  function JoinOne(l: KeyedRow, right: seq<KeyedRow>, kind: JoinKind): (out: seq<OutRow>) {
    var refs := Matches(right, l.key);
    if refs != [] then Pairs(l.ref, refs)
    else if kind.KeepsLeft() then [OutRow(Some(l.ref), None)]
    else []
  }

  function ProbeAll(left: seq<KeyedRow>, right: seq<KeyedRow>, kind: JoinKind): (out: seq<OutRow>) {
    if left == [] then []
    else
      var n := |left| - 1;
      ProbeAll(left[..n], right, kind) + JoinOne(left[n], right, kind)
  }

  predicate Unmatched(left: seq<KeyedRow>, r: KeyedRow) {
    forall i :: 0 <= i < |left| ==> !KeysMatch(left[i].key, r.key)
  }

  function DrainAll(left: seq<KeyedRow>, right: seq<KeyedRow>): (out: seq<OutRow>) {
    if right == [] then []
    else
      var n := |right| - 1;
      if Unmatched(left, right[n]) then DrainAll(left, right[..n]) + [OutRow(None, Some(right[n].ref))]
      else DrainAll(left, right[..n])
  }

  function NestedLoop(left: seq<KeyedRow>, right: seq<KeyedRow>, kind: JoinKind): (out: seq<OutRow>) {
    ProbeAll(left, right, kind) + (if kind.KeepsRight() then DrainAll(left, right) else [])
  }

  // ----- which rows are in it -----

  lemma {:induction false} BatchRowsAre(bs: seq<Batch>, b: nat, n: nat)
    requires b < |bs| && bs[b].Valid() && n <= |bs[b].keys|
    ensures forall x :: x in BatchRows(bs, b, n) <==>
      x.ref.batch == b && x.ref.row < n && bs[b].sel[x.ref.row] && x.key == bs[b].keys[x.ref.row]
  {
    if n > 0 { BatchRowsAre(bs, b, n - 1); }
  }

  lemma {:induction false} RowsAre(bs: seq<Batch>, n: nat)
    requires AllValid(bs) && n <= |bs|
    ensures forall x :: x in Rows(bs, n) <==>
      x.ref.batch < n && x.ref.row < |bs[x.ref.batch].keys| && bs[x.ref.batch].sel[x.ref.row]
      && x.key == bs[x.ref.batch].keys[x.ref.row]
  {
    if n > 0 {
      RowsAre(bs, n - 1);
      BatchRowsAre(bs, n - 1, |bs[n - 1].keys|);
    }
  }

  lemma {:induction false} MatchesAre(right: seq<KeyedRow>, key: seq<KeyVal>, ref: RowRef)
    ensures ref in Matches(right, key) <==> exists i :: 0 <= i < |right| && right[i].ref == ref && KeysMatch(key, right[i].key)
  {
    if right != [] {
      var n := |right| - 1;
      MatchesAre(right[..n], key, ref);
      assert forall i :: 0 <= i < n ==> right[..n][i] == right[i];
    }
  }

  lemma {:induction false} MatchesEmpty(right: seq<KeyedRow>, key: seq<KeyVal>)
    ensures Matches(right, key) == [] <==> forall i :: 0 <= i < |right| ==> !KeysMatch(key, right[i].key)
  {
    var refs := Matches(right, key);
    if refs != [] {
      MatchesAre(right, key, refs[0]);
    }
    if i :| 0 <= i < |right| && KeysMatch(key, right[i].key) {
      MatchesAre(right, key, right[i].ref);
    }
  }

  lemma JoinOneIs(l: KeyedRow, right: seq<KeyedRow>, kind: JoinKind, x: OutRow)
    ensures x in JoinOne(l, right, kind) <==>
      x.left == Some(l.ref)
      && match x.right
         case Some(r) => exists i :: 0 <= i < |right| && right[i].ref == r && KeysMatch(l.key, right[i].key)
         case None => (kind.LeftOuter? || kind.FullOuter?) && forall i :: 0 <= i < |right| ==> !KeysMatch(l.key, right[i].key)
  {
    hide KeysMatch, Matches;
    var refs := Matches(right, l.key);
    MatchesEmpty(right, l.key);
    if x.right.Some? {
      MatchesAre(right, l.key, x.right.value);
      if x.right.value in refs {
        var i :| 0 <= i < |refs| && refs[i] == x.right.value;
        assert Pairs(l.ref, refs)[i] == OutRow(Some(l.ref), x.right);
      }
    }
  }

  lemma {:induction false} ProbeIs(left: seq<KeyedRow>, right: seq<KeyedRow>, kind: JoinKind, x: OutRow)
    ensures x in ProbeAll(left, right, kind) <==> exists i :: 0 <= i < |left| && x in JoinOne(left[i], right, kind)
  {
    hide JoinOne;
    if left != [] {
      var n := |left| - 1;
      ProbeIs(left[..n], right, kind, x);
      assert forall i :: 0 <= i < n ==> left[..n][i] == left[i];
    }
  }

  lemma {:induction false} DrainIs(left: seq<KeyedRow>, right: seq<KeyedRow>, x: OutRow)
    ensures x in DrainAll(left, right) <==> x.left.None? && exists i :: 0 <= i < |right| && x.right == Some(right[i].ref) && Unmatched(left, right[i])
  {
    hide Unmatched;
    if right != [] {
      var n := |right| - 1;
      DrainIs(left, right[..n], x);
      assert forall i :: 0 <= i < n ==> right[..n][i] == right[i];
    }
  }

  // ----- their order -----

  predicate Ahead(a: RowRef, b: RowRef) {
    a.batch < b.batch || (a.batch == b.batch && a.row < b.row)
  }

  // By left row, the rows without one last; then by right row.
  predicate OutBefore(x: OutRow, y: OutRow) {
    if x.left == y.left then x.right.Some? && y.right.Some? && Ahead(x.right.value, y.right.value)
    else x.left.Some? && (y.left.Some? ==> Ahead(x.left.value, y.left.value))
  }

  ghost predicate InOrder(rows: seq<KeyedRow>) {
    forall i, j :: 0 <= i < j < |rows| ==> Ahead(rows[i].ref, rows[j].ref)
  }

  ghost predicate OutInOrder(out: seq<OutRow>) {
    forall i, j :: 0 <= i < j < |out| ==> OutBefore(out[i], out[j])
  }

  lemma {:induction false} BatchRowsInOrder(bs: seq<Batch>, b: nat, n: nat)
    requires b < |bs| && bs[b].Valid() && n <= |bs[b].keys|
    ensures InOrder(BatchRows(bs, b, n))
  {
    if n > 0 {
      BatchRowsInOrder(bs, b, n - 1);
      BatchRowsAre(bs, b, n - 1);
      var front := BatchRows(bs, b, n - 1);
      forall i | 0 <= i < |front| ensures Ahead(front[i].ref, RowRef(b, n - 1)) { assert front[i] in front; }
    }
  }

  lemma {:induction false} RowsInOrder(bs: seq<Batch>, n: nat)
    requires AllValid(bs) && n <= |bs|
    ensures InOrder(Rows(bs, n))
  {
    if n > 0 {
      var front, back := Rows(bs, n - 1), BatchRows(bs, n - 1, |bs[n - 1].keys|);
      RowsInOrder(bs, n - 1);
      RowsAre(bs, n - 1);
      BatchRowsInOrder(bs, n - 1, |bs[n - 1].keys|);
      BatchRowsAre(bs, n - 1, |bs[n - 1].keys|);
      forall i, j | 0 <= i < |front| && 0 <= j < |back| ensures Ahead(front[i].ref, back[j].ref) {
        assert front[i] in front && back[j] in back;
      }
    }
  }

  lemma {:induction false} MatchesInOrder(right: seq<KeyedRow>, key: seq<KeyVal>)
    requires InOrder(right)
    ensures forall i, j :: 0 <= i < j < |Matches(right, key)| ==> Ahead(Matches(right, key)[i], Matches(right, key)[j])
  {
    hide KeysMatch;
    if right != [] {
      var n := |right| - 1;
      MatchesInOrder(right[..n], key);
      var front := Matches(right[..n], key);
      forall i | 0 <= i < |front| ensures Ahead(front[i], right[n].ref) {
        MatchesAre(right[..n], key, front[i]);
        assert front[i] in front;
      }
    }
  }

  lemma JoinOneInOrder(l: KeyedRow, right: seq<KeyedRow>, kind: JoinKind)
    requires InOrder(right)
    ensures OutInOrder(JoinOne(l, right, kind))
  {
    MatchesInOrder(right, l.key);
  }

  lemma OutConcat(a: seq<OutRow>, b: seq<OutRow>)
    requires OutInOrder(a) && OutInOrder(b) && forall x, y :: x in a && y in b ==> OutBefore(x, y)
    ensures OutInOrder(a + b)
  {
    hide OutBefore;
    forall i, j | 0 <= i < j < |a + b| ensures OutBefore((a + b)[i], (a + b)[j]) {
      if i < |a| <= j { assert a[i] in a && b[j - |a|] in b; }
    }
  }

  lemma {:induction false} ProbeInOrder(left: seq<KeyedRow>, right: seq<KeyedRow>, kind: JoinKind)
    requires InOrder(left) && InOrder(right)
    ensures OutInOrder(ProbeAll(left, right, kind))
  {
    hide JoinOne;
    if left != [] {
      var n := |left| - 1;
      ProbeInOrder(left[..n], right, kind);
      JoinOneInOrder(left[n], right, kind);
      var front, back := ProbeAll(left[..n], right, kind), JoinOne(left[n], right, kind);
      forall x, y | x in front && y in back ensures OutBefore(x, y) {
        ProbeIs(left[..n], right, kind, x);
        var i :| 0 <= i < n && x in JoinOne(left[..n][i], right, kind);
        JoinOneIs(left[i], right, kind, x);
        JoinOneIs(left[n], right, kind, y);
        assert Ahead(left[i].ref, left[n].ref);
      }
      OutConcat(front, back);
    }
  }

  lemma {:induction false} DrainInOrder(left: seq<KeyedRow>, right: seq<KeyedRow>)
    requires InOrder(right)
    ensures OutInOrder(DrainAll(left, right))
  {
    hide Unmatched;
    if right != [] {
      var n := |right| - 1;
      DrainInOrder(left, right[..n]);
      var front := DrainAll(left, right[..n]);
      forall i | 0 <= i < |front| ensures OutBefore(front[i], OutRow(None, Some(right[n].ref))) {
        DrainIs(left, right[..n], front[i]);
        assert front[i] in front;
        var k :| 0 <= k < n && front[i].right == Some(right[..n][k].ref);
        assert Ahead(right[k].ref, right[n].ref);
      }
    }
  }

  // ----- the output, said on the batches themselves -----

  predicate IsSelected(bs: seq<Batch>, r: RowRef) {
    r.batch < |bs| && r.row < |bs[r.batch].keys| && r.row < |bs[r.batch].sel| && bs[r.batch].sel[r.row]
  }

  // Two selected rows with equal keys, no part of which is null.
  predicate Joins(left: seq<Batch>, l: RowRef, right: seq<Batch>, r: RowRef) {
    && IsSelected(left, l) && IsSelected(right, r)
    && left[l.batch].keys[l.row] == right[r.batch].keys[r.row]
    && forall c :: 0 <= c < |left[l.batch].keys[l.row]| ==> left[l.batch].keys[l.row][c] != KNull
  }

  // Each pair that joins once; each row without partner once where the kind of
  // join keeps it; nothing else; in order.
  ghost predicate IsJoin(out: seq<OutRow>, left: seq<Batch>, right: seq<Batch>, kind: JoinKind) {
    && (forall l, r :: OutRow(Some(l), Some(r)) in out <==> Joins(left, l, right, r))
    && (forall l :: OutRow(Some(l), None) in out <==>
          kind in {LeftOuter, FullOuter} && IsSelected(left, l) && forall r :: !Joins(left, l, right, r))
    && (forall r :: OutRow(None, Some(r)) in out <==>
          kind in {RightOuter, FullOuter} && IsSelected(right, r) && forall l :: !Joins(left, l, right, r))
    && OutRow(None, None) !in out
    && (forall i, j :: 0 <= i < j < |out| ==> OutBefore(out[i], out[j]))
  }

  lemma JoinsAre(left: seq<Batch>, right: seq<Batch>, l: RowRef, r: RowRef)
    requires AllValid(left) && AllValid(right)
    ensures Joins(left, l, right, r) <==>
      exists x, y :: x in Rows(left, |left|) && y in Rows(right, |right|) && x.ref == l && y.ref == r && KeysMatch(x.key, y.key)
  {
    RowsAre(left, |left|);
    RowsAre(right, |right|);
    if Joins(left, l, right, r) {
      var x, y := KeyedRow(l, left[l.batch].keys[l.row]), KeyedRow(r, right[r.batch].keys[r.row]);
      assert x in Rows(left, |left|) && y in Rows(right, |right|);
    }
  }

  lemma SelectedAre(bs: seq<Batch>, rows: seq<KeyedRow>, r: RowRef)
    requires AllValid(bs) && rows == Rows(bs, |bs|)
    ensures IsSelected(bs, r) <==> exists i :: 0 <= i < |rows| && rows[i].ref == r
  {
    hide Rows;
    RowsAre(bs, |bs|);
    if IsSelected(bs, r) {
      var x := KeyedRow(r, bs[r.batch].keys[r.row]);
      var i :| 0 <= i < |rows| && rows[i] == x;
      assert rows[i].ref == r;
    }
    forall i | 0 <= i < |rows| && rows[i].ref == r ensures IsSelected(bs, r) {
      assert rows[i] in rows;
    }
  }

  lemma RefsAreKeys(bs: seq<Batch>, i: nat, j: nat)
    requires AllValid(bs) && i < |Rows(bs, |bs|)| && j < |Rows(bs, |bs|)|
    requires Rows(bs, |bs|)[i].ref == Rows(bs, |bs|)[j].ref
    ensures i == j
  {
    RowsInOrder(bs, |bs|);
  }

  lemma PairProbed(ls: seq<KeyedRow>, rs: seq<KeyedRow>, kind: JoinKind, l: RowRef, r: RowRef)
    ensures OutRow(Some(l), Some(r)) in NestedLoop(ls, rs, kind) <==>
      exists i, k :: 0 <= i < |ls| && 0 <= k < |rs| && ls[i].ref == l && rs[k].ref == r && KeysMatch(ls[i].key, rs[k].key)
  {
    hide KeysMatch, Unmatched, ProbeAll, DrainAll, JoinOne;
    var x := OutRow(Some(l), Some(r));
    DrainIs(ls, rs, x);
    ProbeIs(ls, rs, kind, x);
    forall i | 0 <= i < |ls| { JoinOneIs(ls[i], rs, kind, x); }
  }

  lemma PairIs(left: seq<Batch>, right: seq<Batch>, kind: JoinKind, l: RowRef, r: RowRef)
    requires AllValid(left) && AllValid(right)
    ensures OutRow(Some(l), Some(r)) in NestedLoop(Rows(left, |left|), Rows(right, |right|), kind) <==> Joins(left, l, right, r)
  {
    hide Rows, KeysMatch, NestedLoop, Joins;
    var ls, rs := Rows(left, |left|), Rows(right, |right|);
    PairProbed(ls, rs, kind, l, r);
    JoinsAre(left, right, l, r);
    if Joins(left, l, right, r) {
      var a, b :| a in ls && b in rs && a.ref == l && b.ref == r && KeysMatch(a.key, b.key);
      var i, k :| 0 <= i < |ls| && ls[i] == a && 0 <= k < |rs| && rs[k] == b;
    }
    if i, k :| 0 <= i < |ls| && 0 <= k < |rs| && ls[i].ref == l && rs[k].ref == r && KeysMatch(ls[i].key, rs[k].key) {
      assert ls[i] in ls && rs[k] in rs;
    }
  }

  lemma LeftAloneIs(left: seq<Batch>, right: seq<Batch>, kind: JoinKind, l: RowRef)
    requires AllValid(left) && AllValid(right)
    ensures OutRow(Some(l), None) in NestedLoop(Rows(left, |left|), Rows(right, |right|), kind) <==>
      kind in {LeftOuter, FullOuter} && IsSelected(left, l) && forall r :: !Joins(left, l, right, r)
  {
    hide Rows, KeysMatch, Unmatched, ProbeAll, DrainAll, JoinOne, Joins, IsSelected;
    var ls, rs, x := Rows(left, |left|), Rows(right, |right|), OutRow(Some(l), None);
    DrainIs(ls, rs, x);
    ProbeIs(ls, rs, kind, x);
    forall i | 0 <= i < |ls| { JoinOneIs(ls[i], rs, kind, x); }
    SelectedAre(left, ls, l);
    forall i | 0 <= i < |ls| && ls[i].ref == l
      ensures (forall k :: 0 <= k < |rs| ==> !KeysMatch(ls[i].key, rs[k].key)) <==> forall r :: !Joins(left, l, right, r)
    {
      PartnersOfLeft(left, right, i);
    }
  }

  lemma PartnersOfLeft(left: seq<Batch>, right: seq<Batch>, i: nat)
    requires AllValid(left) && AllValid(right) && i < |Rows(left, |left|)|
    ensures (forall k :: 0 <= k < |Rows(right, |right|)| ==> !KeysMatch(Rows(left, |left|)[i].key, Rows(right, |right|)[k].key))
      <==> forall r :: !Joins(left, Rows(left, |left|)[i].ref, right, r)
  {
    hide Rows, KeysMatch, Joins;
    var ls, rs := Rows(left, |left|), Rows(right, |right|);
    var l := ls[i].ref;
    forall k | 0 <= k < |rs| && KeysMatch(ls[i].key, rs[k].key) ensures Joins(left, l, right, rs[k].ref) {
      JoinsAre(left, right, l, rs[k].ref);
      assert ls[i] in ls && rs[k] in rs;
    }
    forall r | Joins(left, l, right, r) ensures exists k :: 0 <= k < |rs| && KeysMatch(ls[i].key, rs[k].key) {
      JoinsAre(left, right, l, r);
      var a, b :| a in ls && b in rs && a.ref == l && b.ref == r && KeysMatch(a.key, b.key);
      var j, k :| 0 <= j < |ls| && ls[j] == a && 0 <= k < |rs| && rs[k] == b;
      RefsAreKeys(left, i, j);
    }
  }

  lemma RightAloneIs(left: seq<Batch>, right: seq<Batch>, kind: JoinKind, r: RowRef)
    requires AllValid(left) && AllValid(right)
    ensures OutRow(None, Some(r)) in NestedLoop(Rows(left, |left|), Rows(right, |right|), kind) <==>
      kind in {RightOuter, FullOuter} && IsSelected(right, r) && forall l :: !Joins(left, l, right, r)
  {
    hide Rows, KeysMatch, Unmatched, ProbeAll, DrainAll, JoinOne, Joins, IsSelected;
    var ls, rs, x := Rows(left, |left|), Rows(right, |right|), OutRow(None, Some(r));
    DrainIs(ls, rs, x);
    ProbeIs(ls, rs, kind, x);
    forall i | 0 <= i < |ls| { JoinOneIs(ls[i], rs, kind, x); }
    SelectedAre(right, rs, r);
    forall k | 0 <= k < |rs| && rs[k].ref == r ensures Unmatched(ls, rs[k]) <==> forall l :: !Joins(left, l, right, r) {
      PartnersOfRight(left, right, k);
    }
  }

  lemma PartnersOfRight(left: seq<Batch>, right: seq<Batch>, k: nat)
    requires AllValid(left) && AllValid(right) && k < |Rows(right, |right|)|
    ensures Unmatched(Rows(left, |left|), Rows(right, |right|)[k]) <==> forall l :: !Joins(left, l, right, Rows(right, |right|)[k].ref)
  {
    hide Rows, KeysMatch, Joins;
    var ls, rs := Rows(left, |left|), Rows(right, |right|);
    var r := rs[k].ref;
    forall i | 0 <= i < |ls| && KeysMatch(ls[i].key, rs[k].key) ensures Joins(left, ls[i].ref, right, r) {
      JoinsAre(left, right, ls[i].ref, r);
      assert ls[i] in ls && rs[k] in rs;
    }
    forall l | Joins(left, l, right, r) ensures exists i :: 0 <= i < |ls| && KeysMatch(ls[i].key, rs[k].key) {
      JoinsAre(left, right, l, r);
      var a, b :| a in ls && b in rs && a.ref == l && b.ref == r && KeysMatch(a.key, b.key);
      var i, j :| 0 <= i < |ls| && ls[i] == a && 0 <= j < |rs| && rs[j] == b;
      RefsAreKeys(right, k, j);
    }
  }

  lemma NestedLoopInOrder(left: seq<Batch>, right: seq<Batch>, kind: JoinKind)
    requires AllValid(left) && AllValid(right)
    ensures OutInOrder(NestedLoop(Rows(left, |left|), Rows(right, |right|), kind))
    ensures OutRow(None, None) !in NestedLoop(Rows(left, |left|), Rows(right, |right|), kind)
  {
    hide Rows, KeysMatch, Unmatched, ProbeAll, DrainAll, JoinOne;
    var ls, rs := Rows(left, |left|), Rows(right, |right|);
    RowsInOrder(left, |left|);
    RowsInOrder(right, |right|);
    ProbeInOrder(ls, rs, kind);
    DrainInOrder(ls, rs);
    forall x | x in ProbeAll(ls, rs, kind) ensures x.left.Some? {
      ProbeIs(ls, rs, kind, x);
      var i :| 0 <= i < |ls| && x in JoinOne(ls[i], rs, kind);
      JoinOneIs(ls[i], rs, kind, x);
    }
    forall x | x in DrainAll(ls, rs) ensures x.left.None? && x.right.Some? { DrainIs(ls, rs, x); }
    OutConcat(ProbeAll(ls, rs, kind), if kind.KeepsRight() then DrainAll(ls, rs) else []);
  }

  lemma NestedLoopIsJoin(left: seq<Batch>, right: seq<Batch>, kind: JoinKind)
    requires AllValid(left) && AllValid(right)
    ensures IsJoin(NestedLoop(Rows(left, |left|), Rows(right, |right|), kind), left, right, kind)
  {
    hide Rows, NestedLoop, Joins, IsSelected, OutBefore;
    forall l, r { PairIs(left, right, kind, l, r); }
    forall l { LeftAloneIs(left, right, kind, l); }
    forall r { RightAloneIs(left, right, kind, r); }
    NestedLoopInOrder(left, right, kind);
  }

  lemma {:induction false} SameRowsInOrder(a: seq<OutRow>, b: seq<OutRow>)
    requires OutInOrder(a) && OutInOrder(b) && forall x :: x in a <==> x in b
    ensures a == b
    decreases |a|
  {
    assert a != [] ==> a[|a| - 1] in a;
    assert b != [] ==> b[|b| - 1] in b;
    if a != [] && b != [] {
      var x, y := a[|a| - 1], b[|b| - 1];
      var i, j :| 0 <= i < |b| && b[i] == x && 0 <= j < |a| && a[j] == y;
      assert x == y;
      LastIsNew(a);
      LastIsNew(b);
      var a', b' := a[..|a| - 1], b[..|b| - 1];
      forall z | z in a' ensures z in b' { assert z in a; }
      forall z | z in b' ensures z in a' { assert z in b; }
      SameRowsInOrder(a', b');
    }
  }

  lemma LastIsNew(a: seq<OutRow>)
    requires a != [] && OutInOrder(a)
    ensures a[|a| - 1] !in a[..|a| - 1]
  {
  }

  // The description leaves no choice.
  lemma JoinIsUnique(a: seq<OutRow>, b: seq<OutRow>, left: seq<Batch>, right: seq<Batch>, kind: JoinKind)
    requires IsJoin(a, left, right, kind) && IsJoin(b, left, right, kind)
    ensures a == b
  {
    hide Joins, IsSelected, OutBefore;
    forall x ensures x in a <==> x in b {
      match x
      case OutRow(Some(l), Some(r)) =>
      case OutRow(Some(l), None) =>
      case OutRow(None, Some(r)) =>
      case OutRow(None, None) =>
    }
    SameRowsInOrder(a, b);
  }
}
