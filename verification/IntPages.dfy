// Integer pages: the values of one kind, and the facts about a page that the
// integer codecs choose and encode by.
module IntPages {
  import opened Options
  import opened Bytes
  import opened Bitpack

  // Int32 stands for dates too, Int64 for timestamps, times and decimals.
  datatype Kind = Int16 | Int32 | Enum32 | Int64

  function Width(k: Kind): nat {
    match k
    case Int16 => 2
    case Int32 => 4
    case Enum32 => 4
    case Int64 => 8
  }

  predicate InKind(k: Kind, v: int) {
    match k
    case Int16 => -0x8000 <= v < 0x8000
    case Int32 => -0x8000_0000 <= v < 0x8000_0000
    case Enum32 => 0 <= v < 0x1_0000_0000
    case Int64 => IsInt64(v)
  }

  predicate Page(k: Kind, vals: seq<int>) {
    forall i :: 0 <= i < |vals| ==> InKind(k, vals[i])
  }

  predicate Int64s(vals: seq<int>) {
    forall i :: 0 <= i < |vals| ==> IsInt64(vals[i])
  }

  lemma PageIsInt64s(k: Kind, vals: seq<int>)
    requires Page(k, vals)
    ensures Int64s(vals)
  {
  }

  // ----- arithmetic modulo 2^64 -----

  // The difference of two values as unsigned 64-bit words.
  function Span(hi: int, lo: int): U64 {
    (hi - lo) % U64_LIMIT
  }

  lemma SpanIsExact(hi: int, lo: int)
    requires IsInt64(hi) && IsInt64(lo) && lo <= hi
    ensures Span(hi, lo) == hi - lo
  {
  }

  lemma ToU64IsMod(v: int)
    requires IsInt64(v)
    ensures ToU64(v) == v % U64_LIMIT
  {
  }

  // int64 arithmetic wraps: any integer that agrees modulo 2^64 wraps to the same value.
  lemma WrapAgrees(a: int, b: int)
    requires a % U64_LIMIT == b % U64_LIMIT
    ensures Wrap64(a) == Wrap64(b)
  {
  }

  lemma WrapKeepsRemainder(a: int)
    ensures Wrap64(a) % U64_LIMIT == a % U64_LIMIT
  {
  }

  function Step(vals: seq<int>, i: nat): (d: int)
    requires 0 < i < |vals|
    ensures IsInt64(d)
  {
    Wrap64(vals[i] - vals[i - 1])
  }

  // The wrapped differences of neighbours.
  function Steps(vals: seq<int>): (ds: seq<int>)
    requires |vals| > 0
    ensures |ds| == |vals| - 1 && Int64s(ds) && forall i :: 0 <= i < |ds| ==> ds[i] == Step(vals, i + 1)
  {
    seq(|vals| - 1, i requires 0 <= i < |vals| - 1 => Step(vals, i + 1))
  }

  // ----- extremes -----

  ghost predicate IsMin(m: int, vals: seq<int>) {
    m in vals && forall i :: 0 <= i < |vals| ==> m <= vals[i]
  }

  ghost predicate IsMax(m: int, vals: seq<int>) {
    m in vals && forall i :: 0 <= i < |vals| ==> vals[i] <= m
  }

  predicate AllEqual(vals: seq<int>) {
    forall i :: 0 <= i < |vals| ==> vals[i] == vals[0]
  }

  lemma ExtremesAreUnique(vals: seq<int>, a: int, b: int)
    ensures IsMin(a, vals) && IsMin(b, vals) ==> a == b
    ensures IsMax(a, vals) && IsMax(b, vals) ==> a == b
  {
  }

  lemma ExtremesInt64(vals: seq<int>, lo: int, hi: int)
    requires IsMin(lo, vals) && IsMax(hi, vals) && Int64s(vals)
    ensures IsInt64(lo) && IsInt64(hi)
  {
  }

  lemma ExtremesMeet(vals: seq<int>, lo: int, hi: int)
    requires IsMin(lo, vals) && IsMax(hi, vals)
    ensures lo <= hi && (lo == hi <==> AllEqual(vals))
  {
    if AllEqual(vals) {
      var i :| 0 <= i < |vals| && vals[i] == lo;
      var j :| 0 <= j < |vals| && vals[j] == hi;
    }
  }

  // ----- the scans of the individual codecs -----

  // Base and width of a frame of reference, when the values differ.
  datatype Params = Params(base: int, width: nat)

  ghost predicate ForParamsOf(vals: seq<int>, p: Option<Params>) {
    exists lo, hi :: IsMin(lo, vals) && IsMax(hi, vals)
      && p == if lo == hi then None else Some(Params(lo, BitLength(hi - lo)))
  }

  method ForParams(vals: seq<int>) returns (p: Option<Params>)
    requires vals != [] && Int64s(vals)
    ensures ForParamsOf(vals, p)
  {
    var lo, hi := vals[0], vals[0];
    for i := 1 to |vals|
      invariant IsMin(lo, vals[..i]) && IsMax(hi, vals[..i])
    {
      ExtremeStep(vals, i, lo, hi);
      if vals[i] < lo {
        lo := vals[i];
      }
      if vals[i] > hi {
        hi := vals[i];
      }
    }
    assert vals[..|vals|] == vals;
    ExtremesMeet(vals, lo, hi);
    SpanIsExact(hi, lo);
    var span := Span(hi, lo);
    if span == 0 {
      return None;
    }
    p := Some(Params(lo, BitLength(span)));
  }

  lemma ExtremeStep(vals: seq<int>, i: nat, lo: int, hi: int)
    requires 0 < i < |vals| && IsMin(lo, vals[..i]) && IsMax(hi, vals[..i])
    ensures IsMin(if vals[i] < lo then vals[i] else lo, vals[..i + 1])
    ensures IsMax(if vals[i] > hi then vals[i] else hi, vals[..i + 1])
  {
    assert vals[..i + 1] == vals[..i] + [vals[i]];
  }

  // The same over the wrapped steps, with the first value.
  method DeltaParams(vals: seq<int>) returns (first: int, p: Option<Params>)
    requires |vals| >= 2 && Int64s(vals)
    ensures first == vals[0] && ForParamsOf(Steps(vals), p)
  {
    hide Wrap64, IsMin, IsMax;
    first := vals[0];
    ghost var ds := Steps(vals);
    var d0 := Wrap64(vals[1] - vals[0]);
    var lo, hi := d0, d0;
    assert ds[..1] == [d0];
    OneValue(d0);
    for i := 2 to |vals|
      invariant IsMin(lo, ds[..i - 1]) && IsMax(hi, ds[..i - 1])
    {
      var d := Wrap64(vals[i] - vals[i - 1]);
      assert d == ds[i - 1];
      ExtremeStep(ds, i - 1, lo, hi);
      if d < lo {
        lo := d;
      }
      if d > hi {
        hi := d;
      }
    }
    assert ds[..|vals| - 1] == ds;
    ExtremesMeet(ds, lo, hi);
    ExtremesInt64(ds, lo, hi);
    SpanIsExact(hi, lo);
    var span := Span(hi, lo);
    if span == 0 {
      return first, None;
    }
    p := Some(Params(lo, BitLength(span)));
  }

  predicate IsSequence(vals: seq<int>) {
    |vals| >= 2 && AllEqual(Steps(vals))
  }

  method SequenceFits(vals: seq<int>) returns (ok: bool)
    ensures ok == IsSequence(vals)
  {
    if |vals| < 2 {
      return false;
    }
    var step := Wrap64(vals[1] - vals[0]);
    assert Steps(vals)[0] == step;
    for i := 2 to |vals|
      invariant forall k :: 0 <= k < i - 1 ==> Steps(vals)[k] == step
    {
      if Wrap64(vals[i] - vals[i - 1]) != step {
        assert Steps(vals)[i - 1] != Steps(vals)[0];
        return false;
      }
    }
    ok := true;
  }

  method ConstantAllEqual(vals: seq<int>) returns (ok: bool)
    requires vals != []
    ensures ok == AllEqual(vals)
  {
    for i := 1 to |vals|
      invariant forall k :: 0 <= k < i ==> vals[k] == vals[0]
    {
      if vals[i] != vals[0] {
        return false;
      }
    }
    ok := true;
  }

  // ----- the one-pass analyzer -----

  datatype Facts = Facts(min: int, max: int, constantOK: bool, sequenceOK: bool, sequenceStep: int,
                         forBase: int, forWidth: nat, first: int, deltaBase: int, deltaWidth: nat, deltaOK: bool)

  // What the analyzer promises of an all-valid page: each fact equals what the
  // codec that uses it would have found by its own scan.
  ghost predicate FactsOf(vals: seq<int>, f: Facts)
    requires vals != []
  {
    && IsMin(f.min, vals) && IsMax(f.max, vals)
    && f.constantOK == AllEqual(vals)
    && f.sequenceOK == IsSequence(vals)
    && (|vals| >= 2 ==> f.sequenceStep == Steps(vals)[0])
    && ForParamsOf(vals, if f.forWidth == 0 then None else Some(Params(f.forBase, f.forWidth)))
    && f.first == vals[0]
    && f.deltaOK == (|vals| >= 2 && !AllEqual(Steps(vals)))
    && (f.deltaOK ==> ForParamsOf(Steps(vals), Some(Params(f.deltaBase, f.deltaWidth))))
  }

  function Present(vals: seq<int>, valid: seq<bool>): (p: seq<int>)
    requires |valid| == |vals|
  {
    if vals == [] then []
    else
      var n := |vals| - 1;
      Present(vals[..n], valid[..n]) + if valid[n] then [vals[n]] else []
  }

  lemma PresentStep(vals: seq<int>, valid: seq<bool>, n: nat)
    requires |valid| == |vals| && n < |vals|
    ensures Present(vals[..n + 1], valid[..n + 1]) == Present(vals[..n], valid[..n]) + if valid[n] then [vals[n]] else []
  {
    assert vals[..n + 1][..n] == vals[..n] && valid[..n + 1][..n] == valid[..n];
  }

  lemma {:induction false} AllPresent(vals: seq<int>, valid: seq<bool>)
    requires |valid| == |vals| && forall i :: 0 <= i < |valid| ==> valid[i]
    ensures Present(vals, valid) == vals
  {
    if vals != [] {
      var n := |vals| - 1;
      AllPresent(vals[..n], valid[..n]);
      assert vals == vals[..n] + [vals[n]];
    }
  }

  lemma {:induction false} PresentInt64s(vals: seq<int>, valid: seq<bool>)
    requires |valid| == |vals| && Int64s(vals)
    ensures Int64s(Present(vals, valid))
  {
    if vals != [] { PresentInt64s(vals[..|vals| - 1], valid[..|vals| - 1]); }
  }

  lemma AppendedValue(p: seq<int>, x: int)
    requires p != []
    ensures AllEqual(p + [x]) <==> AllEqual(p) && x == p[|p| - 1]
    ensures Steps(p + [x]) == Steps(p) + [Wrap64(x - p[|p| - 1])]
  {
    var q := p + [x];
    assert forall i :: 0 <= i < |p| ==> q[i] == p[i];
    assert q[|p|] == x && q[0] == p[0];
    if AllEqual(q) { assert q[|p|] == q[0] && q[|p| - 1] == q[0]; }
    if AllEqual(p) { assert p[|p| - 1] == p[0]; }
  }

  lemma AppendedExtremes(p: seq<int>, x: int, lo: int, hi: int)
    requires IsMin(lo, p) && IsMax(hi, p)
    ensures IsMin(if x < lo then x else lo, p + [x]) && IsMax(if x > hi then x else hi, p + [x])
  {
    assert (p + [x])[..|p|] == p;
    assert (p + [x])[..|p| + 1] == p + [x];
    ExtremeStep(p + [x], |p|, lo, hi);
  }

  lemma OneValue(x: int)
    ensures IsMin(x, [x]) && IsMax(x, [x]) && AllEqual([x]) && Steps([x]) == []
  {
  }

  // The state of the walk after the present values p, of which none was missing when noNull.
  datatype Walk = Walk(min: int, max: int, first: int, prev: int, constantOK: bool, sequenceOK: bool,
                       stepKnown: bool, firstStep: int, minDelta: int, maxDelta: int)

  ghost predicate Walked(w: Walk, p: seq<int>, noNull: bool) {
    && (!noNull ==> !w.sequenceOK)
    && (p == [] ==> w.constantOK && (noNull ==> w.sequenceOK) && !w.stepKnown)
    && (p != [] ==> WalkedValues(w, p) && (noNull ==> WalkedSteps(w, p)))
  }

  ghost predicate WalkedValues(w: Walk, p: seq<int>)
    requires p != []
  {
    IsMin(w.min, p) && IsMax(w.max, p) && w.first == p[0] && w.prev == p[|p| - 1] && w.constantOK == AllEqual(p)
  }

  ghost predicate WalkedSteps(w: Walk, p: seq<int>)
    requires p != []
  {
    var ds := Steps(p);
    && w.stepKnown == (|p| >= 2)
    && w.sequenceOK == AllEqual(ds)
    && (|p| >= 2 ==> w.firstStep == ds[0] && IsMin(w.minDelta, ds) && IsMax(w.maxDelta, ds))
  }

  // One present value.
  method WalkValue(w0: Walk, x: int, count: nat, ghost p: seq<int>, ghost noNull: bool) returns (w: Walk)
    requires Walked(w0, p, noNull) && count == |p|
    ensures Walked(w, p + [x], noNull)
  {
    w := w0;
    if count == 0 {
      OneValue(x);
      assert p + [x] == [x];
      w := w.(min := x, max := x, prev := x, first := x);
      return;
    }
    if x < w.min {
      w := w.(min := x);
    }
    if x > w.max {
      w := w.(max := x);
    }
    if x != w.prev {
      w := w.(constantOK := false);
    }
    var step := Wrap64(x - w.prev);
    if w.sequenceOK {
      if !w.stepKnown {
        w := w.(firstStep := step, stepKnown := true);
      } else if step != w.firstStep {
        w := w.(sequenceOK := false);
      }
    }
    if !w.stepKnown || count == 1 {
      w := w.(minDelta := step, maxDelta := step);
    } else {
      if step < w.minDelta {
        w := w.(minDelta := step);
      }
      if step > w.maxDelta {
        w := w.(maxDelta := step);
      }
    }
    w := w.(prev := x);
    ValuesExtend(w0, w, p, x);
    if noNull { StepsExtend(w0, w, p, x); }
  }

  lemma ValuesExtend(w0: Walk, w: Walk, p: seq<int>, x: int)
    requires p != [] && WalkedValues(w0, p)
    requires w.min == (if x < w0.min then x else w0.min) && w.max == (if x > w0.max then x else w0.max)
    requires w.first == w0.first && w.prev == x && w.constantOK == (w0.constantOK && x == w0.prev)
    ensures WalkedValues(w, p + [x])
  {
    AppendedValue(p, x);
    AppendedExtremes(p, x, w0.min, w0.max);
  }

  lemma StepsExtend(w0: Walk, w: Walk, p: seq<int>, x: int)
    requires p != [] && WalkedValues(w0, p) && WalkedSteps(w0, p)
    requires var step := Wrap64(x - w0.prev);
      && w.stepKnown
      && w.sequenceOK == (w0.sequenceOK && (w0.stepKnown ==> step == w0.firstStep))
      && (w0.stepKnown ==> w.firstStep == w0.firstStep)
      && (!w0.stepKnown ==> w.firstStep == step)
      && w.minDelta == (if |p| == 1 || step < w0.minDelta then step else w0.minDelta)
      && w.maxDelta == (if |p| == 1 || step > w0.maxDelta then step else w0.maxDelta)
    ensures WalkedSteps(w, p + [x])
  {
    AppendedValue(p, x);
    var ds, step := Steps(p), Wrap64(x - w0.prev);
    if |p| == 1 {
      OneValue(step);
      assert ds + [step] == [step];
    } else {
      AppendedValue(ds, step);
      AppendedExtremes(ds, step, w0.minDelta, w0.maxDelta);
      LastOfEqual(ds);
    }
  }

  lemma LastOfEqual(ds: seq<int>)
    requires ds != []
    ensures AllEqual(ds) ==> ds[|ds| - 1] == ds[0]
  {
  }

  // One walk over the page. On an all-valid page every fact agrees with the
  // codecs' own scans; on any page with a value, min and max are those of the
  // values present, and no sequence is claimed over a null.
  method AnalyzeIntPage(vals: seq<int>, valid: seq<bool>) returns (r: Option<Facts>)
    requires |valid| == |vals| && Int64s(vals)
    ensures r.None? <==> Present(vals, valid) == []
    ensures r.Some? ==> IsMin(r.value.min, Present(vals, valid)) && IsMax(r.value.max, Present(vals, valid))
    ensures r.Some? && r.value.sequenceOK ==> forall i :: 0 <= i < |valid| ==> valid[i]
    ensures r.Some? && (forall i :: 0 <= i < |valid| ==> valid[i]) ==> vals != [] && FactsOf(vals, r.value)
  {
    hide Walked, FactsOf, Present, IsMin, IsMax;
    var w := StartWalk();
    var count := 0;
    ghost var noNull := true;
    NonePresent();
    assert vals[..0] == [] && valid[..0] == [];
    for i := 0 to |vals|
      invariant count == |Present(vals[..i], valid[..i])|
      invariant Walked(w, Present(vals[..i], valid[..i]), noNull)
      invariant noNull == forall k :: 0 <= k < i ==> valid[k]
    {
      PresentStep(vals, valid, i);
      ghost var p := Present(vals[..i], valid[..i]);
      if !valid[i] {
        assert p + [] == p;
        WalkNull(w, p, noNull);
        w := w.(sequenceOK := false);
        noNull := false;
        continue;
      }
      w := WalkValue(w, vals[i], count, p, noNull);
      count := count + 1;
    }
    assert vals[..|vals|] == vals && valid[..|vals|] == valid;
    if count == 0 {
      return None;
    }
    PresentInt64s(vals, valid);
    r := Finish(w, count, Present(vals, valid), noNull);
    if noNull { AllPresent(vals, valid); }
  }

  method StartWalk() returns (w: Walk)
    ensures Walked(w, [], true)
  {
    w := Walk(0, 0, 0, 0, true, true, false, 0, 0, 0);
  }

  lemma NonePresent()
    ensures Present([], []) == []
  {
  }

  lemma WalkNull(w: Walk, p: seq<int>, noNull: bool)
    requires Walked(w, p, noNull)
    ensures Walked(w.(sequenceOK := false), p, false)
  {
  }

  method Finish(w: Walk, count: nat, ghost p: seq<int>, ghost noNull: bool) returns (r: Option<Facts>)
    requires Walked(w, p, noNull) && p != [] && count == |p| && Int64s(p)
    ensures r.Some? && IsMin(r.value.min, p) && IsMax(r.value.max, p)
    ensures r.value.sequenceOK ==> noNull
    ensures noNull ==> FactsOf(p, r.value)
  {
    var span := Span(w.max, w.min);
    var width := if span > 0 then BitLength(span) else 0;
    var sequenceOK := w.sequenceOK && count >= 2;
    var deltaWidth, deltaOK := 0, false;
    if count >= 2 {
      var deltaSpan := Span(w.maxDelta, w.minDelta);
      if deltaSpan > 0 {
        deltaWidth, deltaOK := BitLength(deltaSpan), true;
      }
    }
    var f := Facts(w.min, w.max, w.constantOK, sequenceOK, w.firstStep, w.min, width, w.first, w.minDelta, deltaWidth, deltaOK);
    FactsFrom(w, p, f, noNull);
    r := Some(f);
  }

  lemma NoBits(v: nat)
    ensures BitLength(v) == 0 <==> v == 0
  {
  }

  lemma FactsFrom(w: Walk, p: seq<int>, f: Facts, noNull: bool)
    requires Walked(w, p, noNull) && p != [] && Int64s(p)
    requires f.min == w.min && f.max == w.max && f.constantOK == w.constantOK && f.first == w.first && f.forBase == w.min
    requires f.sequenceOK == (w.sequenceOK && |p| >= 2) && f.sequenceStep == w.firstStep
    requires f.forWidth == (if Span(w.max, w.min) > 0 then BitLength(Span(w.max, w.min)) else 0)
    requires f.deltaOK == (|p| >= 2 && Span(w.maxDelta, w.minDelta) > 0)
    requires f.deltaOK ==> f.deltaBase == w.minDelta && f.deltaWidth == BitLength(Span(w.maxDelta, w.minDelta))
    ensures IsMin(f.min, p) && IsMax(f.max, p)
    ensures noNull ==> FactsOf(p, f)
  {
    hide IsMin, IsMax, BitLength;
    ExtremesMeet(p, w.min, w.max);
    ExtremesInt64(p, w.min, w.max);
    SpanIsExact(w.max, w.min);
    NoBits(w.max - w.min);
    assert noNull ==> ForParamsOf(p, if f.forWidth == 0 then None else Some(Params(f.forBase, f.forWidth))) by {
      assert BitLength(w.max - w.min) == 0 <==> w.max == w.min;
    }
    if noNull && |p| >= 2 {
      ExtremesMeet(Steps(p), w.minDelta, w.maxDelta);
      ExtremesInt64(Steps(p), w.minDelta, w.maxDelta);
      SpanIsExact(w.maxDelta, w.minDelta);
    }
  }
}
