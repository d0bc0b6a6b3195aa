// Comparisons evaluated on encoded pages, against decoding first and comparing then.
module EncodedEval {
  import opened Options
  import opened Bytes
  import opened Bitpack
  import opened IntPages
  import opened IntCodecs
  import opened Selection
  import BitWords
  import DeltaCodec
  import Predicates
  import TextCodecs

  // A null slot is never selected, whatever value it holds.
  function Masked(hits: seq<bool>, valid: Option<seq<bool>>): (m: seq<bool>)
    requires valid.Some? ==> |valid.value| == |hits|
    ensures |m| == |hits| && forall i :: 0 <= i < |m| ==> m[i] == (hits[i] && (valid.Some? ==> valid.value[i]))
  {
    seq(|hits|, i requires 0 <= i < |hits| => hits[i] && (valid.Some? ==> valid.value[i]))
  }

  method ApplyValidity(valid: Option<seq<bool>>, sel: SelectionMask)
    requires sel.Valid() && (valid.Some? ==> |valid.value| == sel.rows)
    modifies sel
    ensures sel.Valid() && sel.rows == old(sel.rows) && sel.Mask() == Masked(old(sel.Mask()), valid)
  {
    if valid.None? {
      return;
    }
    for i := 0 to sel.rows
      invariant sel.Valid() && sel.rows == old(sel.rows)
      invariant forall k :: 0 <= k < sel.rows ==>
        sel.Mask()[k] == (old(sel.Mask())[k] && (k < i ==> valid.value[k]))
    {
      if !valid.value[i] {
        sel.Unset(i);
      }
    }
  }

  // Selects the rows whose flag is set, then drops the nulls.
  method Narrow(hits: seq<bool>, valid: Option<seq<bool>>, sel: SelectionMask)
    requires sel.Valid() && sel.rows == |hits| && (valid.Some? ==> |valid.value| == |hits|)
    modifies sel
    ensures sel.Valid() && sel.rows == |hits| && sel.Mask() == Masked(hits, valid)
  {
    sel.Clear();
    for i := 0 to |hits|
      invariant sel.Valid() && sel.rows == |hits|
      invariant forall k :: 0 <= k < |hits| ==> sel.Mask()[k] == (k < i && hits[k])
    {
      if hits[i] {
        sel.Set(i);
      }
    }
    assert sel.Mask() == hits;
    ApplyValidity(valid, sel);
  }

  // ----- frame of reference -----

  // The stored bytes are long enough for what the header announces.
  predicate ForBytes(b: seq<Byte>, rows: nat) {
    |b| >= 9 && 1 <= b[8] <= 64 ==> |b| >= 9 + PackedSize(rows, b[8])
  }

  function EqualTo(vals: seq<int>, target: int): (m: seq<bool>)
    ensures |m| == |vals|
  {
    seq(|vals|, i requires 0 <= i < |vals| => vals[i] == target)
  }

  function Below(vals: seq<int>, limit: int): (m: seq<bool>)
    ensures |m| == |vals|
  {
    seq(|vals|, i requires 0 <= i < |vals| => vals[i] < limit)
  }

  function Above(vals: seq<int>, limit: int): (m: seq<bool>)
    ensures |m| == |vals|
  {
    seq(|vals|, i requires 0 <= i < |vals| => vals[i] > limit)
  }

  // The flags the evaluator computes from the residuals alone.
  function ForEqHits(base: int, width: nat, rs: seq<nat>, target: int): (m: seq<bool>)
    ensures |m| == |rs|
  {
    var residual := Wrap64(target - base);
    if residual < 0 || (width < 64 && residual >= Pow2(width)) then seq(|rs|, _ => false)
    else seq(|rs|, i requires 0 <= i < |rs| => rs[i] == residual)
  }

  function MaxResidual(width: nat): nat {
    if width >= 64 then U64_LIMIT - 1 else Pow2(width) - 1
  }

  function ForLtHits(base: int, width: nat, rs: seq<nat>, limit: int): (m: seq<bool>)
    ensures |m| == |rs|
  {
    var threshold := Wrap64(limit - base);
    if threshold <= 0 then seq(|rs|, _ => false)
    else if threshold > MaxResidual(width) then seq(|rs|, _ => true)
    else seq(|rs|, i requires 0 <= i < |rs| => rs[i] < threshold)
  }

  function ForGtHits(base: int, width: nat, rs: seq<nat>, limit: int): (m: seq<bool>)
    ensures |m| == |rs|
  {
    var threshold := Wrap64(limit - base);
    if threshold < 0 then seq(|rs|, _ => true)
    else if threshold >= MaxResidual(width) then seq(|rs|, _ => false)
    else seq(|rs|, i requires 0 <= i < |rs| => rs[i] > threshold)
  }

  datatype RangeOp = EQ | LT | GT

  function ForHits(op: RangeOp, base: int, width: nat, rs: seq<nat>, target: int): (m: seq<bool>)
    ensures |m| == |rs|
  {
    match op
    case EQ => ForEqHits(base, width, rs, target)
    case LT => ForLtHits(base, width, rs, target)
    case GT => ForGtHits(base, width, rs, target)
  }

  function Compared(op: RangeOp, vals: seq<int>, target: int): (m: seq<bool>)
    ensures |m| == |vals|
  {
    match op
    case EQ => EqualTo(vals, target)
    case LT => Below(vals, target)
    case GT => Above(vals, target)
  }

  method EvalForEq(b: seq<Byte>, rows: nat, valid: Option<seq<bool>>, target: int, sel: SelectionMask) returns (ok: bool)
    requires sel.Valid() && sel.rows == rows && (valid.Some? ==> |valid.value| == rows) && ForBytes(b, rows)
    modifies sel
    ensures ok <==> |b| >= 9 && 1 <= b[8] <= 64
    ensures sel.Valid() && sel.rows == rows
    ensures ok ==> sel.Mask() == Masked(ForEqHits(ToI64Of(b, 0), b[8], Unpacked(b[8], b[9..], rows), target), valid)
  {
    hide Unpacked, PackedSize, FromLE, Wrap64, Pow2;
    if |b| < 9 {
      return false;
    }
    var base, width := ToI64Of(b, 0), b[8];
    if width < 1 || width > 64 {
      return false;
    }
    var residualSigned := Wrap64(target - base);
    if residualSigned < 0 || (width < 64 && residualSigned >= Pow2(width)) {
      sel.Clear();
      return true;
    }
    var residuals := Unpack(width, b[9..], rows);
    var hits := seq(rows, i requires 0 <= i < rows => residuals[i] == residualSigned);
    Narrow(hits, valid, sel);
    ok := true;
  }

  method EvalForRange(b: seq<Byte>, rows: nat, valid: Option<seq<bool>>, limit: int, op: RangeOp, sel: SelectionMask) returns (ok: bool)
    requires op != EQ
    requires sel.Valid() && sel.rows == rows && (valid.Some? ==> |valid.value| == rows) && ForBytes(b, rows)
    modifies sel
    ensures ok <==> |b| >= 9 && 1 <= b[8] <= 64
    ensures sel.Valid() && sel.rows == rows
    ensures ok ==> sel.Mask() == Masked(ForHits(op, ToI64Of(b, 0), b[8], Unpacked(b[8], b[9..], rows), limit), valid)
  {
    hide Unpacked, PackedSize, FromLE, Wrap64, MaxResidual;
    if |b| < 9 {
      return false;
    }
    var base, width := ToI64Of(b, 0), b[8];
    if width < 1 || width > 64 {
      return false;
    }
    var threshold := Wrap64(limit - base);
    var maxResidual := MaxResidual(width);
    ok := true;
    if op == LT {
      if threshold <= 0 {
        sel.Clear();
        return;
      }
      if threshold > maxResidual {
        var n := sel.FillAll();
        ApplyValidity(valid, sel);
        return;
      }
    } else {
      if threshold < 0 {
        var n := sel.FillAll();
        ApplyValidity(valid, sel);
        return;
      }
      if threshold >= maxResidual {
        sel.Clear();
        return;
      }
    }
    var residuals := Unpack(width, b[9..], rows);
    var hits := seq(rows, i requires 0 <= i < rows => if op == LT then residuals[i] < threshold else residuals[i] > threshold);
    Narrow(hits, valid, sel);
  }

  // What the evaluator reads from a page the encoder wrote.
  lemma ForPageParts(k: Kind, vals: seq<int>, b: seq<Byte>) returns (base: int, width: nat)
    requires Page(k, vals) && IsForPage(k, vals, b)
    ensures vals != [] && Int64s(vals) && IsInt64(base) && IsMin(base, vals) && 1 <= width < 64
    ensures |b| == 9 + PackedSize(|vals|, width) && ToI64Of(b, 0) == base && b[8] == width
    ensures Unpacked(width, b[9..], |vals|) == ForResiduals(vals, base)
    ensures forall i :: 0 <= i < |vals| ==> ForResiduals(vals, base)[i] == vals[i] - base < Pow2(width)
  {
    hide ForParamsOf, LE, FromLE, Packed, Unpacked, PackedSize, Pow2, ForResiduals;
    var p :| vals != [] && Int64s(vals) && ForParamsOf(vals, Some(p)) && p.width < 8 * Width(k) && IsInt64(p.base) && b == ForPayload(vals, p);
    base, width := p.base, p.width;
    ResidualsFit(vals, p);
    ParamsFacts(vals, p);
    var rs := ForResiduals(vals, base);
    PackedRoundTrip(width, rs);
    assert b == [] + LE(ToU64(base), 8) + ([width] + Packed(width, rs));
    StoredInt64([], base, [width] + Packed(width, rs));
    assert b[8] == width && b[9..] == Packed(width, rs);
  }

  lemma WidthBelow64(width: nat)
    requires width < 64
    ensures 2 * Pow2(width) <= U64_LIMIT
  {
    Pow2Grows(width + 1, 64);
    Pow2Of64();
  }

  // Encoded equality is exact for every target, also when target - base wraps.
  lemma ForEqIsExact(vals: seq<int>, base: int, width: nat, rs: seq<nat>, target: int)
    requires Int64s(vals) && IsInt64(base) && IsInt64(target) && width < 64 && |rs| == |vals|
    requires forall i :: 0 <= i < |vals| ==> rs[i] == vals[i] - base < Pow2(width)
    ensures ForEqHits(base, width, rs, target) == EqualTo(vals, target)
  {
    hide Pow2;
    WidthBelow64(width);
    var hits := ForEqHits(base, width, rs, target);
    forall i | 0 <= i < |vals| ensures hits[i] == (vals[i] == target) {
      EqAt(vals[i], base, target, Pow2(width));
    }
  }

  lemma EqAt(v: int, base: int, target: int, limit: int)
    requires IsInt64(v) && IsInt64(base) && IsInt64(target) && 0 <= v - base < limit && 2 * limit <= U64_LIMIT
    ensures v == target <==> Wrap64(target - base) == v - base
    ensures Wrap64(target - base) < 0 || Wrap64(target - base) >= limit ==> v != target
  {
  }

  // On the residuals of a page, less and greater are exact exactly when
  // limit - base fits int64. A wrapped threshold gets the page minimum wrong.
  lemma ForRangeExactIff(op: RangeOp, vals: seq<int>, base: int, width: nat, rs: seq<nat>, limit: int)
    requires op != EQ && Int64s(vals) && IsMin(base, vals) && IsInt64(base) && IsInt64(limit) && width < 64 && |rs| == |vals|
    requires forall i :: 0 <= i < |vals| ==> rs[i] == vals[i] - base < Pow2(width)
    ensures ForHits(op, base, width, rs, limit) == Compared(op, vals, limit) <==> IsInt64(limit - base)
  {
    hide Pow2;
    WidthBelow64(width);
    var hits, want := ForHits(op, base, width, rs, limit), Compared(op, vals, limit);
    if IsInt64(limit - base) {
      forall i | 0 <= i < |vals| ensures hits[i] == want[i] {
        RangeAt(op, vals[i], base, limit, width, rs, i);
      }
      assert hits == want;
    } else {
      var m :| 0 <= m < |vals| && vals[m] == base;
      WrapBeyond(limit - base);
      assert hits[m] != want[m];
    }
  }

  lemma RangeAt(op: RangeOp, v: int, base: int, limit: int, width: nat, rs: seq<nat>, i: nat)
    requires op != EQ && i < |rs| && rs[i] == v - base < Pow2(width) && width < 64 && IsInt64(limit - base)
    ensures ForHits(op, base, width, rs, limit)[i] == (if op == LT then v < limit else v > limit)
  {
    hide Pow2;
  }

  lemma WrapBeyond(d: int)
    requires !IsInt64(d) && 0 - U64_LIMIT < d < U64_LIMIT
    ensures d > 0 ==> Wrap64(d) < 0
    ensures d < 0 ==> Wrap64(d) > 0
  {
  }

  // ----- encoded pages -----

  // Evaluating a comparison on an encoder-produced page selects what decoding
  // and comparing selects; for the range operators precisely when the distance
  // from the page base to the limit is an int64.
  lemma ForPageExactIff(k: Kind, op: RangeOp, vals: seq<int>, b: seq<Byte>, target: int)
    requires Page(k, vals) && IsForPage(k, vals, b) && IsInt64(target)
    ensures ForDecoded(k, b, |vals|) == Some(vals)
    ensures |b| >= 9 && 1 <= b[8] <= 64 && |b| == 9 + PackedSize(|vals|, b[8])
    ensures (ForHits(op, ToI64Of(b, 0), b[8], Unpacked(b[8], b[9..], |vals|), target) == Compared(op, vals, target))
         == (op == EQ || IsInt64(target - ToI64Of(b, 0)))
  {
    hide ForHits, Compared, Unpacked, PackedSize, Pow2, ForResiduals, FromLE, IsForPage, ForDecoded;
    ForRoundTrip(k, vals, b);
    var base, width := ForPageParts(k, vals, b);
    var rs := ForResiduals(vals, base);
    if op == EQ {
      ForEqIsExact(vals, base, width, rs, target);
      EqHits(base, width, rs, target);
      EqualIsCompared(vals, target);
    } else {
      ForRangeExactIff(op, vals, base, width, rs, target);
    }
  }

  lemma EqHits(base: int, width: nat, rs: seq<nat>, target: int)
    ensures ForHits(EQ, base, width, rs, target) == ForEqHits(base, width, rs, target)
  {
  }

  lemma EqualIsCompared(vals: seq<int>, target: int)
    ensures EqualTo(vals, target) == Compared(EQ, vals, target)
  {
  }

  // ----- behind the page statistics -----

  function LeafOf(op: RangeOp, col: string, target: int): Predicates.Pred {
    match op
    case EQ => Predicates.EqInt(col, target)
    case LT => Predicates.LtInt(col, target)
    case GT => Predicates.GtInt(col, target)
  }

  // The statistics of an all-valid integer page, as the page analyzer finds them.
  ghost predicate StatsOf(s: Predicates.PageStats, vals: seq<int>) {
    && s.rows == |vals| > 0 && s.nullCount == 0 && !s.allNull && s.isInt
    && IsMin(s.min, vals) && IsMax(s.max, vals)
  }

  // A limit whose distance from the page minimum wraps lies outside the range of
  // the page, so the statistics alone decide the page.
  lemma WrappedLimitIsDecided(op: RangeOp, col: string, stats: map<string, Predicates.PageStats>, hash: seq<Byte> -> nat, vals: seq<int>, limit: int, width: nat)
    requires op != EQ && col in stats && StatsOf(stats[col], vals) && Int64s(vals) && IsInt64(limit)
    requires width < 64 && stats[col].max - stats[col].min < Pow2(width) && !IsInt64(limit - stats[col].min)
    ensures Predicates.PrunePage(LeafOf(op, col, limit), stats, hash) || Predicates.AlwaysMatches(LeafOf(op, col, limit), stats, hash)
  {
    hide Pow2;
    WidthBelow64(width);
  }

  // A decided page is decided rightly.
  lemma DecidedPage(op: RangeOp, col: string, stats: map<string, Predicates.PageStats>, hash: seq<Byte> -> nat, vals: seq<int>, target: int)
    requires col in stats && StatsOf(stats[col], vals)
    ensures Predicates.PrunePage(LeafOf(op, col, target), stats, hash) ==> Compared(op, vals, target) == seq(|vals|, _ => false)
    ensures Predicates.AlwaysMatches(LeafOf(op, col, target), stats, hash) ==> Compared(op, vals, target) == seq(|vals|, _ => true)
  {
  }

  // One page of a scan: statistics first, encoded bytes only when they leave the
  // page open. On every frame-of-reference page the encoder writes this selects
  // what decoding and comparing selects, for every int64 target.
  method ScanForPage(op: RangeOp, col: string, target: int, stats: map<string, Predicates.PageStats>, pruned: bool, matched: bool,
                     b: seq<Byte>, rows: nat, sel: SelectionMask, ghost hash: seq<Byte> -> nat, ghost k: Kind, ghost vals: seq<int>)
    returns (ok: bool)
    requires sel.Valid() && sel.rows == rows && IsInt64(target)
    requires Page(k, vals) && IsForPage(k, vals, b) && rows == |vals| && col in stats && StatsOf(stats[col], vals)
    requires pruned == Predicates.PrunePage(LeafOf(op, col, target), stats, hash)
    requires matched == Predicates.AlwaysMatches(LeafOf(op, col, target), stats, hash)
    modifies sel
    ensures ok && sel.Valid() && sel.rows == rows
    ensures ForDecoded(k, b, rows) == Some(vals) && sel.Mask() == Compared(op, vals, target)
  {
    hide Compared, Unpacked, PackedSize, Pow2, FromLE, IsForPage, ForDecoded, ForResiduals, ForHits, ForEqHits, StatsOf, LeafOf;
    ForPageExactIff(k, op, vals, b, target);
    DecidedPage(op, col, stats, hash, vals, target);
    ok := true;
    if pruned {
      sel.Clear();
      return;
    }
    if matched {
      var n := sel.FillAll();
      return;
    }
    OpenPage(op, col, stats, hash, k, vals, b, target);
    if op == EQ {
      ok := EvalForEq(b, rows, None, target, sel);
      EqHits(ToI64Of(b, 0), b[8], Unpacked(b[8], b[9..], rows), target);
    } else {
      ok := EvalForRange(b, rows, None, target, op, sel);
    }
    UnmaskedIs(ForHits(op, ToI64Of(b, 0), b[8], Unpacked(b[8], b[9..], rows), target));
  }

  lemma UnmaskedIs(hits: seq<bool>)
    ensures Masked(hits, None) == hits
  {
  }

  // A page the statistics leave open has a target whose distance from the base does not wrap.
  lemma OpenPage(op: RangeOp, col: string, stats: map<string, Predicates.PageStats>, hash: seq<Byte> -> nat, k: Kind, vals: seq<int>, b: seq<Byte>, target: int)
    requires Page(k, vals) && IsForPage(k, vals, b) && col in stats && StatsOf(stats[col], vals) && IsInt64(target) && |b| >= 9
    requires !Predicates.PrunePage(LeafOf(op, col, target), stats, hash) && !Predicates.AlwaysMatches(LeafOf(op, col, target), stats, hash)
    ensures op == EQ || IsInt64(target - ToI64Of(b, 0))
  {
    hide Unpacked, PackedSize, Pow2, FromLE, IsForPage, ForResiduals, LeafOf;
    var base, width := ForPageParts(k, vals, b);
    var s := stats[col];
    ExtremesAreUnique(vals, base, s.min);
    var m :| 0 <= m < |vals| && vals[m] == s.max;
    assert ForResiduals(vals, base)[m] == s.max - base < Pow2(width);
    if op != EQ && !IsInt64(target - base) { WrappedLimitIsDecided(op, col, stats, hash, vals, target, width); }
  }

  // ----- delta -----

  function DeltaHits(first: int, base: int, rs: seq<U64>, target: int): (m: seq<bool>)
    ensures |m| == |rs| + 1
  {
    seq(|rs| + 1, i requires 0 <= i < |rs| + 1 => Current(first, base, rs, i) == target)
  }

  // The running int64 value.
  function Current(first: int, base: int, rs: seq<U64>, i: nat): int
    requires i <= |rs|
  {
    if i == 0 then first else Wrap64(Current(first, base, rs, i - 1) + Wrap64(ToI64(rs[i - 1]) + base))
  }

  method EvalDeltaEq(b: seq<Byte>, rows: nat, valid: Option<seq<bool>>, target: int, sel: SelectionMask) returns (ok: bool)
    requires rows >= 1 && sel.Valid() && sel.rows == rows && (valid.Some? ==> |valid.value| == rows)
    requires |b| >= 17 && 1 <= b[16] <= 64 ==> |b| >= 17 + PackedSize(rows - 1, b[16])
    modifies sel
    ensures ok <==> |b| >= 17 && 1 <= b[16] <= 64
    ensures sel.Valid() && sel.rows == rows
    ensures ok ==> sel.Mask() == Masked(DeltaHits(ToI64Of(b, 0), ToI64Of(b, 8), AsU64s(b[16], b[17..], rows - 1), target), valid)
  {
    hide Unpacked, PackedSize, FromLE, Wrap64, Current;
    if |b| < 17 {
      return false;
    }
    var first, base, width := ToI64Of(b, 0), ToI64Of(b, 8), b[16];
    if width < 1 || width > 64 {
      return false;
    }
    UnpackedAreU64s(width, b[17..], rows - 1);
    var residuals := Unpack(width, b[17..], rows - 1);
    ghost var rs := AsU64s(width, b[17..], rows - 1);
    FirstCurrent(first, base, rs);
    var cur := first;
    var hits := [cur == target];
    for i := 0 to rows - 1
      invariant |hits| == i + 1 && cur == Current(first, base, rs, i)
      invariant forall k :: 0 <= k <= i ==> hits[k] == (Current(first, base, rs, k) == target)
      modifies {}
    {
      NextCurrent(first, base, rs, i + 1);
      cur := Wrap64(cur + Wrap64(ToI64(residuals[i]) + base));
      hits := hits + [cur == target];
    }
    assert hits == DeltaHits(first, base, rs, target);
    Narrow(hits, valid, sel);
    ok := true;
  }

  lemma FirstCurrent(first: int, base: int, rs: seq<U64>)
    ensures Current(first, base, rs, 0) == first
  {
  }

  lemma NextCurrent(first: int, base: int, rs: seq<U64>, i: nat)
    requires 0 < i <= |rs|
    ensures Current(first, base, rs, i) == Wrap64(Current(first, base, rs, i - 1) + Wrap64(ToI64(rs[i - 1]) + base))
  {
  }

  // The evaluator's running value is the value the decoder restores.
  lemma {:induction false} CurrentIsDecoded(first: int, base: int, rs: seq<U64>, i: nat)
    requires IsInt64(first) && IsInt64(base) && i <= |rs|
    ensures Current(first, base, rs, i) == ToI64(DeltaCodec.Word(ToU64(first), ToU64(base), rs, i))
  {
    hide Current, DeltaCodec.Word;
    if i == 0 {
      FirstCurrent(first, base, rs);
      DeltaCodec.FirstWord(ToU64(first), ToU64(base), rs);
    } else {
      CurrentIsDecoded(first, base, rs, i - 1);
      NextCurrent(first, base, rs, i);
      DeltaCodec.NextWord(ToU64(first), ToU64(base), rs, i);
      SumAgrees(DeltaCodec.Word(ToU64(first), ToU64(base), rs, i - 1), rs[i - 1], base);
    }
  }

  lemma SumAgrees(w: U64, r: U64, base: int)
    requires IsInt64(base)
    ensures Wrap64(ToI64(w) + Wrap64(ToI64(r) + base)) == ToI64((w + r + ToU64(base)) % U64_LIMIT)
  {
    hide ToI64, ToU64, Wrap64;
    var x, y := ToI64(w), Wrap64(ToI64(r) + base);
    Congruent(w);
    Congruent(r);
    ToU64IsMod(base);
    WrapKeepsRemainder(ToI64(r) + base);
    AddCongruent(ToI64(r), base, r, ToU64(base));
    AddCongruent(x, y, w, r + ToU64(base));
    WrapIs(x + y);
  }

  lemma Congruent(w: U64)
    ensures ToI64(w) % U64_LIMIT == w % U64_LIMIT
  {
  }

  lemma AddCongruent(a: int, b: int, c: int, d: int)
    requires a % U64_LIMIT == c % U64_LIMIT && b % U64_LIMIT == d % U64_LIMIT
    ensures (a + b) % U64_LIMIT == (c + d) % U64_LIMIT
  {
  }

  lemma WrapIs(v: int)
    ensures Wrap64(v) == ToI64(v % U64_LIMIT)
  {
  }

  // Delta equality is exact on every page that decodes, for every target.
  lemma DeltaEqIsExact(k: Kind, b: seq<Byte>, rows: nat, vals: seq<int>, target: int)
    requires rows >= 2 && DeltaCodec.Decoded(k, b, rows) == Some(vals)
    ensures |b| >= 17 && 1 <= b[16] <= 64 && |b| == 17 + PackedSize(rows - 1, b[16])
    ensures |vals| == rows
    ensures DeltaHits(ToI64Of(b, 0), ToI64Of(b, 8), AsU64s(b[16], b[17..], rows - 1), target) == EqualTo(vals, target)
  {
    hide Current, DeltaCodec.Word, Unpacked, PackedSize, FromLE;
    var first, base := ToI64Of(b, 0), ToI64Of(b, 8);
    var rs := AsU64s(b[16], b[17..], rows - 1);
    var ws := DeltaCodec.RunningWords(ToU64(first), ToU64(base), rs);
    forall i | 0 <= i < rows ensures Current(first, base, rs, i) == vals[i] {
      CurrentIsDecoded(first, base, rs, i);
      assert vals[i] == Restored(ws[i], 0);
    }
    assert DeltaHits(first, base, rs, target) == EqualTo(vals, target);
  }

  // A delta page in a scan, behind the page statistics: an equality selects what
  // decoding and comparing selects, for every target, on every page the encoder writes.
  method ScanDeltaPage(col: string, target: int, stats: map<string, Predicates.PageStats>, pruned: bool, matched: bool,
                       b: seq<Byte>, rows: nat, sel: SelectionMask, ghost hash: seq<Byte> -> nat, ghost k: Kind, ghost vals: seq<int>)
    returns (ok: bool)
    requires sel.Valid() && sel.rows == rows
    requires Page(k, vals) && DeltaCodec.IsDeltaPage(k, vals, b) && rows == |vals| && col in stats && StatsOf(stats[col], vals)
    requires pruned == Predicates.PrunePage(LeafOf(EQ, col, target), stats, hash)
    requires matched == Predicates.AlwaysMatches(LeafOf(EQ, col, target), stats, hash)
    modifies sel
    ensures ok && sel.Valid() && sel.rows == rows
    ensures DeltaCodec.Decoded(k, b, rows) == Some(vals) && sel.Mask() == Compared(EQ, vals, target)
  {
    hide Compared, Unpacked, PackedSize, FromLE, DeltaCodec.Decoded, DeltaHits, EqualTo, StatsOf, LeafOf;
    DeltaCodec.RoundTrip(k, vals, b);
    DecidedPage(EQ, col, stats, hash, vals, target);
    DeltaEqIsExact(k, b, rows, vals, target);
    EqualIsCompared(vals, target);
    ok := true;
    if pruned {
      sel.Clear();
      return;
    }
    if matched {
      var n := sel.FillAll();
      return;
    }
    ok := EvalDeltaEq(b, rows, None, target, sel);
    UnmaskedIs(DeltaHits(ToI64Of(b, 0), ToI64Of(b, 8), AsU64s(b[16], b[17..], rows - 1), target));
  }

  // ----- dictionary -----

  datatype TextOp = TextEq | TextLt(inclusive: bool) | TextGt(inclusive: bool)

  function TextLeafOf(op: TextOp, col: string, target: seq<Byte>): (p: Predicates.Pred)
    ensures Predicates.IsLeaf(p) && p.col == col
  {
    match op
    case TextEq => Predicates.EqText(col, target)
    case TextLt(inclusive) => Predicates.LtText(col, target, inclusive)
    case TextGt(inclusive) => Predicates.GtText(col, target, inclusive)
  }

  predicate TextPasses(op: TextOp, v: seq<Byte>, target: seq<Byte>) {
    Predicates.TextMatches(TextLeafOf(op, "", target), v)
  }

  // The comparison, in the order of byte strings.
  ghost predicate TextMeans(op: TextOp, v: seq<Byte>, target: seq<Byte>) {
    match op
    case TextEq => v == target
    case TextLt(inclusive) => IsBelow(v, target) || (inclusive && v == target)
    case TextGt(inclusive) => IsBelow(target, v) || (inclusive && v == target)
  }

  lemma PassesMeans(op: TextOp, v: seq<Byte>, target: seq<Byte>)
    ensures TextPasses(op, v, target) <==> TextMeans(op, v, target)
  {
    hide IsBelow, LexLess;
    LexLessIs(v, target);
    LexLessIs(target, v);
  }

  function TextHits(op: TextOp, rows: seq<seq<Byte>>, target: seq<Byte>): (m: seq<bool>)
    ensures |m| == |rows|
  {
    seq(|rows|, i requires 0 <= i < |rows| => TextPasses(op, rows[i], target))
  }

  // The flags a dictionary page yields: each entry is compared once, each row looks its code up.
  function DictHits(op: TextOp, es: seq<seq<Byte>>, is_: seq<Byte>, target: seq<Byte>): (m: seq<bool>)
    ensures |m| == |is_|
  {
    seq(|is_|, i requires 0 <= i < |is_| => is_[i] < |es| && TextPasses(op, es[is_[i]], target))
  }

  predicate Distinct(es: seq<seq<Byte>>) {
    forall i, j :: 0 <= i < j < |es| ==> es[i] != es[j]
  }

  // Equality: the code of the first matching entry, compared with each index.
  method EvalDictEq(b: seq<Byte>, rows: nat, valid: Option<seq<bool>>, target: seq<Byte>, sel: SelectionMask) returns (ok: bool)
    requires sel.Valid() && sel.rows == rows && (valid.Some? ==> |valid.value| == rows)
    modifies sel
    ensures ok <==> TextCodecs.ParseDict(b, rows).Some?
    ensures sel.Valid() && sel.rows == rows
    ensures ok && Distinct(TextCodecs.ParseDict(b, rows).value.0) ==>
      sel.Mask() == Masked(DictHits(TextEq, TextCodecs.ParseDict(b, rows).value.0, TextCodecs.ParseDict(b, rows).value.1, target), valid)
  {
    hide TextCodecs.ParseDict;
    var d := TextCodecs.ParseDict(b, rows);
    if d.None? {
      return false;
    }
    var (es, is_) := d.value;
    ok := true;
    var code := 0;
    while code < |es| && es[code] != target
      invariant code <= |es| && forall k :: 0 <= k < code ==> es[k] != target
    {
      code := code + 1;
    }
    if code == |es| {
      sel.Clear();
      assert DictHits(TextEq, es, is_, target) == seq(rows, _ => false);
      return;
    }
    var hits := seq(rows, i requires 0 <= i < rows => is_[i] == code);
    if Distinct(es) {
      forall i | 0 <= i < rows ensures hits[i] == DictHits(TextEq, es, is_, target)[i] {
        if is_[i] < |es| && es[is_[i]] == es[code] { assert is_[i] == code; }
      }
      assert hits == DictHits(TextEq, es, is_, target);
    }
    Narrow(hits, valid, sel);
  }

  // The comparison of one entry with the target.
  method EntryPasses(entry: seq<Byte>, target: seq<Byte>, greater: bool, inclusive: bool) returns (pass: bool)
    ensures pass <==> TextPasses(if greater then TextGt(inclusive) else TextLt(inclusive), entry, target)
  {
    hide IsBelow, LexLess;
    LexLessIs(entry, target);
    LexLessIs(target, entry);
    PassesMeans(if greater then TextGt(inclusive) else TextLt(inclusive), entry, target);
    if greater {
      pass := LexLess(target, entry) || (inclusive && entry == target);
    } else {
      pass := LexLess(entry, target) || (inclusive && entry == target);
    }
  }

  // Order: 256 accept bits, one an entry, packed into four words.
  method DictAccept(es: seq<seq<Byte>>, target: seq<Byte>, greater: bool, inclusive: bool) returns (accept: seq<bv64>)
    requires |es| <= 256
    ensures |accept| == 4
    ensures forall i: nat :: BitAt(accept, i) <==> i < |es| && TextPasses(if greater then TextGt(inclusive) else TextLt(inclusive), es[i], target)
  {
    hide BitAt, TextPasses;
    accept := [0, 0, 0, 0];
    EmptyWords(accept);
    for i := 0 to |es|
      invariant |accept| == 4
      invariant forall k: nat :: BitAt(accept, k) <==> k < i && TextPasses(if greater then TextGt(inclusive) else TextLt(inclusive), es[k], target)
    {
      var pass := EntryPasses(es[i], target, greater, inclusive);
      if pass {
        ghost var before := accept;
        accept := accept[i / 64 := BitWords.Or(accept[i / 64], BitWords.Shl(1, i % 64))];
        SetBit(before, accept, i);
      }
    }
  }

  method EvalDictOrdered(b: seq<Byte>, rows: nat, valid: Option<seq<bool>>, target: seq<Byte>, greater: bool, inclusive: bool, sel: SelectionMask)
    returns (ok: bool)
    requires sel.Valid() && sel.rows == rows && (valid.Some? ==> |valid.value| == rows)
    modifies sel
    ensures ok <==> TextCodecs.ParseDict(b, rows).Some?
    ensures sel.Valid() && sel.rows == rows
    ensures ok ==>
      sel.Mask() == Masked(DictHits(if greater then TextGt(inclusive) else TextLt(inclusive),
                                    TextCodecs.ParseDict(b, rows).value.0, TextCodecs.ParseDict(b, rows).value.1, target), valid)
  {
    hide TextCodecs.ParseDict, BitAt, TextPasses;
    var d := TextCodecs.ParseDict(b, rows);
    if d.None? {
      return false;
    }
    var (es, is_) := d.value;
    var accept := DictAccept(es, target, greater, inclusive);
    var hits := seq(rows, i requires 0 <= i < rows => BitAt(accept, is_[i]));
    assert hits == DictHits(if greater then TextGt(inclusive) else TextLt(inclusive), es, is_, target);
    Narrow(hits, valid, sel);
    ok := true;
  }

  // On an encoder-produced dictionary page the encoded comparison selects
  // exactly the rows whose text passes.
  lemma DictIsExact(op: TextOp, rows: seq<seq<Byte>>, b: seq<Byte>, target: seq<Byte>)
    requires TextCodecs.Storable(rows) && TextCodecs.IsDictPage(rows, b)
    ensures TextCodecs.ParseDict(b, |rows|).Some? && Distinct(TextCodecs.ParseDict(b, |rows|).value.0)
    ensures DictHits(op, TextCodecs.ParseDict(b, |rows|).value.0, TextCodecs.ParseDict(b, |rows|).value.1, target) == TextHits(op, rows, target)
  {
    hide TextCodecs.ParseDict, TextCodecs.Entries, TextCodecs.PlainSize, TextPasses, TextCodecs.IsDictPage;
    TextCodecs.DictParses(rows, b);
    TextCodecs.EntriesAre(rows);
    var es, is_ := TextCodecs.Entries(rows), TextCodecs.Indices(rows);
    assert forall i :: 0 <= i < |rows| ==> es[is_[i]] == rows[i];
  }

  lemma MaskIsHits(op: TextOp, col: string, rows: seq<seq<Byte>>, target: seq<Byte>, page: Predicates.Batch)
    requires Predicates.ValidBatch(page) && page.rows == |rows| && col in page.cols
    requires page.cols[col] == Predicates.Texts(seq(|rows|, i requires 0 <= i < |rows| => Some(rows[i])))
    ensures TextHits(op, rows, target) == Predicates.MaskOf(TextLeafOf(op, col, target), page)
  {
    hide LexLess;
  }

  // One dictionary page of a scan: on every page the encoder writes, comparing
  // codes selects the rows that evaluating the leaf on the decoded texts selects.
  method ScanDictPage(op: TextOp, col: string, target: seq<Byte>, b: seq<Byte>, sel: SelectionMask,
                      ghost rows: seq<seq<Byte>>, ghost page: Predicates.Batch)
    returns (ok: bool)
    requires sel.Valid() && sel.rows == |rows|
    requires TextCodecs.Storable(rows) && TextCodecs.IsDictPage(rows, b)
    requires Predicates.ValidBatch(page) && page.rows == |rows| && col in page.cols
    requires page.cols[col] == Predicates.Texts(seq(|rows|, i requires 0 <= i < |rows| => Some(rows[i])))
    modifies sel
    ensures ok && sel.Valid() && sel.rows == |rows|
    ensures TextCodecs.DictDecoded(b, |rows|) == Some(rows)
    ensures sel.Mask() == Predicates.MaskOf(TextLeafOf(op, col, target), page)
    ensures forall r :: 0 <= r < |rows| ==> (sel.Mask()[r] <==> TextMeans(op, rows[r], target))
  {
    hide TextCodecs.ParseDict, TextCodecs.IsDictPage, TextCodecs.DictDecoded, DictHits, TextPasses, TextMeans;
    TextCodecs.DictRoundTrip(rows, b);
    DictIsExact(op, rows, b, target);
    MaskIsHits(op, col, rows, target, page);
    forall r | 0 <= r < |rows| ensures TextHits(op, rows, target)[r] <==> TextMeans(op, rows[r], target) { PassesMeans(op, rows[r], target); }
    match op {
      case TextEq => ok := EvalDictEq(b, sel.rows, None, target, sel);
      case TextLt(inclusive) => ok := EvalDictOrdered(b, sel.rows, None, target, false, inclusive, sel);
      case TextGt(inclusive) => ok := EvalDictOrdered(b, sel.rows, None, target, true, inclusive, sel);
    }
    UnmaskedIs(TextHits(op, rows, target));
  }
}
