// Storage predicates: two-valued row selection, evaluation into packed masks,
// and what page statistics alone can decide.
module Predicates {
  import opened Options
  import opened Bytes
  import opened Selection

  datatype Column = Ints(ints: seq<Option<int>>) | Texts(texts: seq<Option<seq<Byte>>>)

  function RowsOf(c: Column): nat {
    match c
    case Ints(v) => |v|
    case Texts(v) => |v|
  }

  datatype Batch = Batch(rows: nat, cols: map<string, Column>)

  predicate ValidBatch(b: Batch) {
    forall n :: n in b.cols ==> RowsOf(b.cols[n]) == b.rows
  }

  datatype Pred =
    | EqInt(col: string, v: int)
    | LtInt(col: string, v: int)
    | GtInt(col: string, v: int)
    | EqText(col: string, t: seq<Byte>)
    | LtText(col: string, t: seq<Byte>, inclusive: bool)
    | GtText(col: string, t: seq<Byte>, inclusive: bool)
    | IsNull(col: string)
    | And(kids: seq<Pred>)
    | Or(kids: seq<Pred>)
    | Not(kid: Pred)

  predicate IsLeaf(p: Pred) {
    !p.And? && !p.Or? && !p.Not?
  }

  // ----- meaning: which rows a predicate selects -----

  predicate IntMatches(p: Pred, x: int) {
    match p
    case EqInt(_, v) => x == v
    case LtInt(_, v) => x < v
    case GtInt(_, v) => x > v
    case _ => false
  }

  predicate TextMatches(p: Pred, x: seq<Byte>) {
    match p
    case EqText(_, t) => x == t
    case LtText(_, t, inclusive) => LexLess(x, t) || (inclusive && x == t)
    case GtText(_, t, inclusive) => LexLess(t, x) || (inclusive && x == t)
    case _ => false
  }

  // A leaf selects no row of a column the batch lacks, and no comparison selects a null.
  predicate LeafSelects(p: Pred, b: Batch, r: nat)
    requires IsLeaf(p) && ValidBatch(b) && r < b.rows
  {
    p.col in b.cols &&
    match b.cols[p.col]
    case Ints(v) => if p.IsNull? then v[r].None? else v[r].Some? && IntMatches(p, v[r].value)
    case Texts(v) => if p.IsNull? then v[r].None? else v[r].Some? && TextMatches(p, v[r].value)
  }

  predicate Selects(p: Pred, b: Batch, r: nat)
    requires ValidBatch(b) && r < b.rows
  {
    match p
    case And(kids) => forall k :: 0 <= k < |kids| ==> Selects(kids[k], b, r)
    case Or(kids) => exists k :: 0 <= k < |kids| && Selects(kids[k], b, r)
    case Not(kid) => !Selects(kid, b, r)
    case _ => LeafSelects(p, b, r)
  }

  function MaskOf(p: Pred, b: Batch): (m: seq<bool>)
    requires ValidBatch(b)
    ensures |m| == b.rows
  {
    seq(b.rows, r requires 0 <= r < b.rows => Selects(p, b, r))
  }

  // What a text leaf selects, in the order of byte strings.
  lemma TextLeafMeans(p: Pred, b: Batch, r: nat)
    requires (p.EqText? || p.LtText? || p.GtText?) && ValidBatch(b) && r < b.rows
    ensures MaskOf(p, b)[r] <==>
      p.col in b.cols && b.cols[p.col].Texts? && b.cols[p.col].texts[r].Some?
      && (var x := b.cols[p.col].texts[r].value;
          (x == p.t && (p.EqText? || p.inclusive)) || (p.LtText? && IsBelow(x, p.t)) || (p.GtText? && IsBelow(p.t, x)))
  {
    hide IsBelow, LexLess;
    if p.col in b.cols && b.cols[p.col].Texts? && b.cols[p.col].texts[r].Some? {
      LexLessIs(b.cols[p.col].texts[r].value, p.t);
      LexLessIs(p.t, b.cols[p.col].texts[r].value);
    }
  }

  // ----- evaluation -----

  method EnsureMaskSize(sel: SelectionMask, rows: nat)
    requires sel.Valid()
    modifies sel
    ensures sel.Valid() && sel.rows == rows && sel.Mask() == seq(rows, _ => false)
  {
    if sel.rows != rows {
      sel.Resize(rows);
      return;
    }
    sel.Clear();
  }

  method EvalLeaf(p: Pred, b: Batch, sel: SelectionMask)
    requires IsLeaf(p) && ValidBatch(b) && sel.Valid()
    modifies sel
    ensures sel.Valid() && sel.rows == b.rows && sel.Mask() == MaskOf(p, b)
  {
    EnsureMaskSize(sel, b.rows);
    if p.col !in b.cols {
      return;
    }
    if p.IsNull? {
      for r := 0 to b.rows
        invariant sel.Valid() && sel.rows == b.rows
        invariant forall k :: 0 <= k < b.rows ==> sel.Mask()[k] == (k < r && LeafSelects(p, b, k))
      {
        if LeafSelects(p, b, r) {
          sel.Set(r);
        }
      }
      return;
    }
    var n := sel.FillAll();
    for r := 0 to b.rows
      invariant sel.Valid() && sel.rows == b.rows
      invariant forall k :: 0 <= k < b.rows ==> sel.Mask()[k] == (k >= r || LeafSelects(p, b, k))
    {
      if !LeafSelects(p, b, r) {
        sel.Unset(r);
      }
    }
  }

  // The first n children combined.
  function AllOf(kids: seq<Pred>, n: nat, b: Batch): (m: seq<bool>)
    requires n <= |kids| && ValidBatch(b)
    ensures |m| == b.rows
  {
    MaskOf(And(kids[..n]), b)
  }

  function SomeOf(kids: seq<Pred>, n: nat, b: Batch): (m: seq<bool>)
    requires n <= |kids| && ValidBatch(b)
    ensures |m| == b.rows
  {
    MaskOf(Or(kids[..n]), b)
  }

  lemma AllOfStep(kids: seq<Pred>, n: nat, b: Batch)
    requires n < |kids| && ValidBatch(b)
    ensures AllOf(kids, n + 1, b) == Both(AllOf(kids, n, b), MaskOf(kids[n], b))
    ensures AllOf(kids, 0, b) == seq(b.rows, _ => true)
    ensures AllOf(kids, 1, b) == MaskOf(kids[0], b)
  {
    hide LeafSelects;
    forall r | 0 <= r < b.rows ensures AllOf(kids, n + 1, b)[r] == (AllOf(kids, n, b)[r] && MaskOf(kids[n], b)[r]) {
      assert forall k :: 0 <= k < n + 1 ==> kids[..n + 1][k] == kids[k];
      assert forall k :: 0 <= k < n ==> kids[..n][k] == kids[k];
      assert Selects(And(kids[..n + 1]), b, r) <==> Selects(And(kids[..n]), b, r) && Selects(kids[n], b, r);
    }
    assert kids[..1] == [kids[0]];
  }

  lemma SomeOfStep(kids: seq<Pred>, n: nat, b: Batch)
    requires n < |kids| && ValidBatch(b)
    ensures SomeOf(kids, n + 1, b) == Either(SomeOf(kids, n, b), MaskOf(kids[n], b))
    ensures SomeOf(kids, 0, b) == seq(b.rows, _ => false)
    ensures SomeOf(kids, 1, b) == MaskOf(kids[0], b)
  {
    hide LeafSelects;
    forall r | 0 <= r < b.rows ensures SomeOf(kids, n + 1, b)[r] == (SomeOf(kids, n, b)[r] || MaskOf(kids[n], b)[r]) {
      assert forall k :: 0 <= k < n + 1 ==> kids[..n + 1][k] == kids[k];
      assert forall k :: 0 <= k < n ==> kids[..n][k] == kids[k];
      assert Selects(Or(kids[..n + 1]), b, r) <==> Selects(Or(kids[..n]), b, r) || Selects(kids[n], b, r);
    }
    assert kids[..1] == [kids[0]];
  }

  method Eval(p: Pred, b: Batch, sel: SelectionMask)
    requires ValidBatch(b) && sel.Valid()
    modifies sel
    ensures sel.Valid() && sel.rows == b.rows && sel.Mask() == MaskOf(p, b)
    decreases p, 1
  {
    match p {
      case And(kids) => EvalAnd(p, kids, b, sel);
      case Or(kids) => EvalOr(p, kids, b, sel);
      case Not(kid) =>
        Eval(kid, b, sel);
        var n := sel.NotCount();
      case _ => EvalLeaf(p, b, sel);
    }
  }

  method EvalAnd(p: Pred, kids: seq<Pred>, b: Batch, sel: SelectionMask)
    requires p == And(kids) && ValidBatch(b) && sel.Valid()
    modifies sel
    ensures sel.Valid() && sel.rows == b.rows && sel.Mask() == MaskOf(p, b)
    decreases p, 0
  {
    if |kids| == 0 {
      EnsureMaskSize(sel, b.rows);
      var n := sel.FillAll();
      assert sel.Mask() == MaskOf(p, b);
      return;
    }
    hide Selects, MaskOf, AllOf;
    AllOfStep(kids, 0, b);
    Eval(kids[0], b, sel);
    for k := 1 to |kids|
      invariant sel.Valid() && sel.rows == b.rows && sel.Mask() == AllOf(kids, k, b)
    {
      var tmp := new SelectionMask(0);
      Eval(kids[k], b, tmp);
      AllOfStep(kids, k, b);
      var n := sel.AndCount(tmp);
    }
    AllOfAll(kids, b);
  }

  lemma AllOfAll(kids: seq<Pred>, b: Batch)
    requires ValidBatch(b)
    ensures AllOf(kids, |kids|, b) == MaskOf(And(kids), b)
    ensures SomeOf(kids, |kids|, b) == MaskOf(Or(kids), b)
  {
    assert kids[..|kids|] == kids;
  }

  method EvalOr(p: Pred, kids: seq<Pred>, b: Batch, sel: SelectionMask)
    requires p == Or(kids) && ValidBatch(b) && sel.Valid()
    modifies sel
    ensures sel.Valid() && sel.rows == b.rows && sel.Mask() == MaskOf(p, b)
    decreases p, 0
  {
    if |kids| == 0 {
      EnsureMaskSize(sel, b.rows);
      assert sel.Mask() == MaskOf(p, b);
      return;
    }
    hide Selects, MaskOf, SomeOf;
    SomeOfStep(kids, 0, b);
    Eval(kids[0], b, sel);
    for k := 1 to |kids|
      invariant sel.Valid() && sel.rows == b.rows && sel.Mask() == SomeOf(kids, k, b)
    {
      var tmp := new SelectionMask(0);
      Eval(kids[k], b, tmp);
      SomeOfStep(kids, k, b);
      var n := sel.OrCount(tmp);
    }
    AllOfAll(kids, b);
  }

  // ----- page statistics -----

  // bloom, when present, is the set of hashes the page filter accepts.
  datatype PageStats = PageStats(rows: nat, nullCount: nat, allNull: bool, isInt: bool, min: int, max: int, bloom: Option<set<nat>>)

  // The min/max of a page, when the page has any integer value.
  predicate HasMinMax(s: PageStats) {
    s.isInt && s.rows != 0 && !s.allNull
  }

  function NullAt(c: Column, r: nat): bool
    requires r < RowsOf(c)
  {
    match c
    case Ints(v) => v[r].None?
    case Texts(v) => v[r].None?
  }

  // What the writer guarantees about the statistics of one column of a page.
  ghost predicate Describes(s: PageStats, c: Column, hash: seq<Byte> -> nat) {
    && s.rows == RowsOf(c)
    && (s.nullCount == 0 ==> forall r :: 0 <= r < RowsOf(c) ==> !NullAt(c, r))
    && (s.allNull ==> forall r :: 0 <= r < RowsOf(c) ==> NullAt(c, r))
    && (s.isInt ==> c.Ints?)
    && (HasMinMax(s) ==> forall r :: 0 <= r < |c.ints| && c.ints[r].Some? ==> s.min <= c.ints[r].value <= s.max)
    && (s.bloom.Some? && c.Texts? ==> forall r :: 0 <= r < |c.texts| && c.texts[r].Some? ==> hash(c.texts[r].value) in s.bloom.value)
  }

  // Every column the page has statistics for is decoded into the batch.
  ghost predicate DescribesPage(stats: map<string, PageStats>, b: Batch, hash: seq<Byte> -> nat) {
    forall n :: n in stats ==> n in b.cols && Describes(stats[n], b.cols[n], hash)
  }

  // ----- always false, always true -----

  predicate PruneLeaf(p: Pred, stats: map<string, PageStats>, hash: seq<Byte> -> nat)
    requires IsLeaf(p)
  {
    p.col in stats &&
    var s := stats[p.col];
    match p
    case EqInt(_, v) => HasMinMax(s) && (v < s.min || v > s.max)
    case LtInt(_, v) => HasMinMax(s) && s.min >= v
    case GtInt(_, v) => HasMinMax(s) && s.max <= v
    case EqText(_, t) => s.allNull || (s.bloom.Some? && hash(t) !in s.bloom.value)
    case IsNull(_) => s.nullCount == 0
    case _ => false
  }

  predicate PrunePage(p: Pred, stats: map<string, PageStats>, hash: seq<Byte> -> nat) {
    match p
    case And(kids) => exists k :: 0 <= k < |kids| && PrunePage(kids[k], stats, hash)
    case Or(kids) => forall k :: 0 <= k < |kids| ==> PrunePage(kids[k], stats, hash)
    case Not(kid) => ChildAlwaysMatches(kid, stats)
    case _ => PruneLeaf(p, stats, hash)
  }

  // Leaves only: a compound child is never known to match.
  predicate ChildAlwaysMatches(p: Pred, stats: map<string, PageStats>) {
    IsLeaf(p) && p.col in stats &&
    var s := stats[p.col];
    match p
    case IsNull(_) => s.rows > 0 && s.allNull
    case EqInt(_, v) => s.nullCount == 0 && HasMinMax(s) && s.min == v && s.max == v
    case LtInt(_, v) => s.nullCount == 0 && HasMinMax(s) && s.max < v
    case GtInt(_, v) => s.nullCount == 0 && HasMinMax(s) && s.min > v
    case _ => false
  }

  predicate AlwaysMatches(p: Pred, stats: map<string, PageStats>, hash: seq<Byte> -> nat) {
    match p
    case And(kids) => forall k :: 0 <= k < |kids| ==> AlwaysMatches(kids[k], stats, hash)
    case Or(kids) => exists k :: 0 <= k < |kids| && AlwaysMatches(kids[k], stats, hash)
    case Not(kid) => PrunePage(kid, stats, hash)
    case _ => ChildAlwaysMatches(p, stats)
  }

  lemma LeafSound(p: Pred, stats: map<string, PageStats>, b: Batch, hash: seq<Byte> -> nat, r: nat)
    requires IsLeaf(p) && ValidBatch(b) && DescribesPage(stats, b, hash) && r < b.rows
    ensures PruneLeaf(p, stats, hash) ==> !LeafSelects(p, b, r)
    ensures ChildAlwaysMatches(p, stats) ==> LeafSelects(p, b, r)
  {
    if p.col in stats {
      var s, c := stats[p.col], b.cols[p.col];
      assert Describes(s, c, hash);
      assert s.nullCount == 0 ==> !NullAt(c, r);
      assert s.allNull ==> NullAt(c, r);
    }
  }

  // Statistics as the page analyzer leaves them: the extremes are values of the page, the null counts are exact.
  ghost predicate Tight(s: PageStats, c: Column) {
    && s.rows == RowsOf(c) && (s.isInt <==> c.Ints?)
    && (s.nullCount == 0 <==> forall r :: 0 <= r < RowsOf(c) ==> !NullAt(c, r))
    && (s.allNull <==> RowsOf(c) > 0 && forall r :: 0 <= r < RowsOf(c) ==> NullAt(c, r))
    && (HasMinMax(s) ==> Some(s.min) in c.ints && Some(s.max) in c.ints)
  }

  // On tight statistics the order and null leaves decide exactly, both ways.
  lemma LeafStatsAreExact(p: Pred, stats: map<string, PageStats>, b: Batch, hash: seq<Byte> -> nat)
    requires ValidBatch(b) && DescribesPage(stats, b, hash) && b.rows > 0
    requires (p.LtInt? || p.GtInt? || p.IsNull?) && p.col in stats && Tight(stats[p.col], b.cols[p.col])
    requires !p.IsNull? ==> HasMinMax(stats[p.col])
    ensures PruneLeaf(p, stats, hash) <==> forall r :: 0 <= r < b.rows ==> !LeafSelects(p, b, r)
    ensures ChildAlwaysMatches(p, stats) <==> forall r :: 0 <= r < b.rows ==> LeafSelects(p, b, r)
  {
    var s, c := stats[p.col], b.cols[p.col];
    forall r | 0 <= r < b.rows
      ensures PruneLeaf(p, stats, hash) ==> !LeafSelects(p, b, r)
      ensures ChildAlwaysMatches(p, stats) ==> LeafSelects(p, b, r)
    {
      LeafSound(p, stats, b, hash, r);
    }
    assert RowsOf(c) == b.rows;
    if p.IsNull? {
      assert forall r :: 0 <= r < b.rows ==> LeafSelects(p, b, r) == NullAt(c, r);
    } else {
      var lo :| 0 <= lo < |c.ints| && c.ints[lo] == Some(s.min);
      var hi :| 0 <= hi < |c.ints| && c.ints[hi] == Some(s.max);
      assert LeafSelects(p, b, lo) == IntMatches(p, s.min) && LeafSelects(p, b, hi) == IntMatches(p, s.max);
      if s.nullCount != 0 {
        var r :| 0 <= r < b.rows && NullAt(c, r);
        assert !LeafSelects(p, b, r);
      }
    }
  }

  // One child that is decided the right way decides the whole, wherever it stands.
  lemma DecidedChild(kids: seq<Pred>, kid: Pred, stats: map<string, PageStats>, hash: seq<Byte> -> nat)
    requires kid in kids
    ensures PrunePage(kid, stats, hash) ==> PrunePage(And(kids), stats, hash)
    ensures AlwaysMatches(kid, stats, hash) ==> AlwaysMatches(Or(kids), stats, hash)
    ensures !PrunePage(kid, stats, hash) ==> !PrunePage(Or(kids), stats, hash)
    ensures !AlwaysMatches(kid, stats, hash) ==> !AlwaysMatches(And(kids), stats, hash)
  {
    var i :| 0 <= i < |kids| && kids[i] == kid;
  }

  // Pruning and always-matching are sound for every row, and dual to each other under NOT.
  lemma {:induction false} PruneAndMatchAreSound(p: Pred, stats: map<string, PageStats>, b: Batch, hash: seq<Byte> -> nat, r: nat)
    requires ValidBatch(b) && DescribesPage(stats, b, hash) && r < b.rows
    ensures PrunePage(p, stats, hash) ==> !Selects(p, b, r)
    ensures AlwaysMatches(p, stats, hash) ==> Selects(p, b, r)
    decreases p
  {
    hide PruneLeaf, ChildAlwaysMatches, LeafSelects;
    match p {
      case And(kids) =>
        forall k | 0 <= k < |kids|
          ensures PrunePage(kids[k], stats, hash) ==> !Selects(kids[k], b, r)
          ensures AlwaysMatches(kids[k], stats, hash) ==> Selects(kids[k], b, r)
        {
          PruneAndMatchAreSound(kids[k], stats, b, hash, r);
        }
      case Or(kids) =>
        forall k | 0 <= k < |kids|
          ensures PrunePage(kids[k], stats, hash) ==> !Selects(kids[k], b, r)
          ensures AlwaysMatches(kids[k], stats, hash) ==> Selects(kids[k], b, r)
        {
          PruneAndMatchAreSound(kids[k], stats, b, hash, r);
        }
      case Not(kid) =>
        PruneAndMatchAreSound(kid, stats, b, hash, r);
        if ChildAlwaysMatches(kid, stats) {
          OnlyLeavesMatch(kid, stats);
          LeafSound(kid, stats, b, hash, r);
        }
      case _ =>
        LeafSound(p, stats, b, hash, r);
    }
  }

  lemma OnlyLeavesMatch(p: Pred, stats: map<string, PageStats>)
    requires ChildAlwaysMatches(p, stats)
    ensures IsLeaf(p)
  {
  }

  // Deciding a page by its statistics first never changes the selection.
  method SelectPage(p: Pred, stats: map<string, PageStats>, b: Batch, ghost hash: seq<Byte> -> nat, pruned: bool, matched: bool, sel: SelectionMask)
    requires ValidBatch(b) && DescribesPage(stats, b, hash) && sel.Valid()
    requires pruned == PrunePage(p, stats, hash) && matched == AlwaysMatches(p, stats, hash)
    modifies sel
    ensures sel.Valid() && sel.rows == b.rows && sel.Mask() == MaskOf(p, b)
  {
    hide Selects, PrunePage, AlwaysMatches;
    forall r | 0 <= r < b.rows
      ensures PrunePage(p, stats, hash) ==> !Selects(p, b, r)
      ensures AlwaysMatches(p, stats, hash) ==> Selects(p, b, r)
    {
      PruneAndMatchAreSound(p, stats, b, hash, r);
    }
    if pruned {
      EnsureMaskSize(sel, b.rows);
    } else if matched {
      EnsureMaskSize(sel, b.rows);
      var n := sel.FillAll();
    } else {
      Eval(p, b, sel);
    }
  }
}
