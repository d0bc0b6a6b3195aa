// The delta codec: the first value, then the bit-packed distances of the
// wrapped steps from the smallest step.
module DeltaCodec {
  import opened Options
  import opened Bytes
  import opened Bitpack
  import opened IntPages
  import opened IntCodecs

  // u[i + 1] - u[i] - base, modulo 2^64.
  function Residual(vals: seq<int>, base: int, i: nat): U64
    requires Int64s(vals) && IsInt64(base) && i + 1 < |vals|
  {
    Minus(Minus(ToU64(vals[i + 1]), ToU64(vals[i])), ToU64(base))
  }

  function Residuals(vals: seq<int>, base: int): (rs: seq<U64>)
    requires vals != [] && Int64s(vals) && IsInt64(base)
    ensures |rs| == |vals| - 1 && forall i :: 0 <= i < |rs| ==> rs[i] == Residual(vals, base, i)
  {
    seq<U64>(|vals| - 1, i requires 0 <= i < |vals| - 1 => Residual(vals, base, i))
  }

  // Subtracting twice modulo 2^64 is the distance of the wrapped step from the base.
  lemma ResidualIsDistance(vals: seq<int>, base: int, i: nat)
    requires Int64s(vals) && IsInt64(base) && i + 1 < |vals| && base <= Step(vals, i + 1)
    ensures Residual(vals, base, i) == Step(vals, i + 1) - base
  {
    var a, b, d := vals[i + 1], vals[i], Step(vals, i + 1);
    ToU64IsMod(a);
    ToU64IsMod(b);
    ToU64IsMod(base);
    WrapKeepsRemainder(a - b);
    SubtractTwice(a, b, base, d);
    SpanIsExact(d, base);
  }

  lemma SubtractTwice(a: int, b: int, base: int, d: int)
    requires IsInt64(a) && IsInt64(b) && IsInt64(base) && d % U64_LIMIT == (a - b) % U64_LIMIT
    ensures Minus(Minus(ToU64(a), ToU64(b)), ToU64(base)) == (d - base) % U64_LIMIT
  {
    var m := Minus(ToU64(a), ToU64(b));
    assert m == d % U64_LIMIT by {
      SameModulo(ToU64(a) - ToU64(b), a - b, (if a < 0 then 1 else 0) - (if b < 0 then 1 else 0));
    }
    SameModulo(d - base, m - ToU64(base), d / U64_LIMIT + (if base < 0 then 1 else 0));
  }

  lemma SameModulo(x: int, y: int, turns: int)
    requires x == y + turns * U64_LIMIT
    ensures x % U64_LIMIT == y % U64_LIMIT
  {
    var q, r := y / U64_LIMIT, y % U64_LIMIT;
    assert x == (q + turns) * U64_LIMIT + r;
  }

  function Payload(vals: seq<int>, p: Params): (b: seq<Byte>)
    requires vals != [] && Int64s(vals) && IsInt64(p.base) && p.width < 256
  {
    LE(ToU64(vals[0]), 8) + LE(ToU64(p.base), 8) + [p.width] + Packed(p.width, Residuals(vals, p.base))
  }

  ghost predicate IsDeltaPage(k: Kind, vals: seq<int>, b: seq<Byte>) {
    exists p :: |vals| >= 2 && Int64s(vals) && ForParamsOf(Steps(vals), Some(p)) && p.width < 8 * Width(k)
      && IsInt64(p.base) && b == Payload(vals, p)
  }

  lemma DeltaPageSize(k: Kind, vals: seq<int>, b: seq<Byte>, p: Params)
    requires IsDeltaPage(k, vals, b) && ForParamsOf(Steps(vals), Some(p))
    ensures |b| == 17 + PackedSize(|vals| - 1, p.width)
  {
    hide ForParamsOf, LE, Packed, PackedSize, Residuals;
    var q :| Int64s(vals) && ForParamsOf(Steps(vals), Some(q)) && q.width < 8 * Width(k) && IsInt64(q.base) && b == Payload(vals, q);
    ParamsAreUnique(Steps(vals), Some(p), Some(q));
    PackedSizeExact(q.width, Residuals(vals, q.base));
  }

  lemma ResidualsFit(vals: seq<int>, p: Params)
    requires |vals| >= 2 && Int64s(vals) && ForParamsOf(Steps(vals), Some(p))
    ensures IsInt64(p.base) && 1 <= p.width <= 64
    ensures forall i :: 0 <= i < |vals| - 1 ==> Residuals(vals, p.base)[i] < Pow2(p.width)
  {
    hide Pow2, Step;
    ParamsFacts(Steps(vals), p);
    forall i | 0 <= i < |vals| - 1 ensures Residuals(vals, p.base)[i] < Pow2(p.width) {
      assert Steps(vals)[i] == Step(vals, i + 1);
      ResidualIsDistance(vals, p.base, i);
    }
  }

  method DeltaFits(k: Kind, vals: seq<int>, facts: Option<Facts>) returns (first: int, p: Option<Params>)
    requires Page(k, vals) && (facts.Some? ==> vals != [] && FactsOf(vals, facts.value))
    ensures p.Some? ==> |vals| >= 2 && first == vals[0] && ForParamsOf(Steps(vals), p) && p.value.width < 8 * Width(k)
    ensures p.None? && |vals| >= 2 ==> forall q :: ForParamsOf(Steps(vals), Some(q)) ==> q.width >= 8 * Width(k)
  {
    hide ForParamsOf;
    PageIsInt64s(k, vals);
    first := 0;
    if |vals| < 2 {
      return first, None;
    }
    if facts.Some? {
      var f := facts.value;
      first := f.first;
      p := if !f.deltaOK then None else Some(Params(f.deltaBase, f.deltaWidth));
      if !f.deltaOK { EqualStepsHaveNoParams(Steps(vals)); }
    } else {
      first, p := DeltaParams(vals);
    }
    forall q | ForParamsOf(Steps(vals), Some(q)) ensures p == Some(q) { ParamsAreUniqueUnlessNone(Steps(vals), p, q); }
    if p.Some? && p.value.width >= 8 * Width(k) {
      return first, None;
    }
  }

  lemma EqualStepsHaveNoParams(ds: seq<int>)
    requires ds != [] && AllEqual(ds)
    ensures ForParamsOf(ds, None)
  {
    assert IsMin(ds[0], ds) && IsMax(ds[0], ds);
  }

  lemma ParamsAreUniqueUnlessNone(vals: seq<int>, p: Option<Params>, q: Params)
    requires ForParamsOf(vals, p) && ForParamsOf(vals, Some(q))
    ensures p == Some(q)
  {
    ParamsAreUnique(vals, p, Some(q));
  }

  method Encode(k: Kind, vals: seq<int>, facts: Option<Facts>, maxLen: nat) returns (r: Option<seq<Byte>>)
    requires Page(k, vals) && (facts.Some? ==> vals != [] && FactsOf(vals, facts.value))
    ensures r.Some? ==> IsDeltaPage(k, vals, r.value) && (maxLen == 0 || |r.value| <= maxLen)
    ensures r.None? ==> forall b :: IsDeltaPage(k, vals, b) ==> 0 < maxLen < |b|
  {
    hide ForParamsOf, LE, Packed, PackedSize, Wrote, Residuals, Pow2, IsDeltaPage, InKind, ToU64, Minus, FactsOf;
    PageIsInt64s(k, vals);
    var first, p := DeltaFits(k, vals, facts);
    if p.None? {
      NoDeltaPage(k, vals);
      return None;
    }
    ResidualsFit(vals, p.value);
    var base, width := p.value.base, p.value.width;
    var n := 17 + PackedSize(|vals| - 1, width);
    forall b | IsDeltaPage(k, vals, b) ensures |b| == n { DeltaPageSize(k, vals, b, p.value); }
    if TooLong(n, maxLen) {
      return None;
    }
    var scratch := new Byte[n];
    ghost var d0 := scratch[..];
    PutUint64(scratch, 0, ToU64(first));
    ghost var d1 := scratch[..];
    PutUint64(scratch, 8, ToU64(base));
    ghost var d2 := scratch[..];
    scratch[16] := width;
    ghost var d3 := scratch[..];
    var words := ReadForValues(vals);
    var residuals: seq<U64> := [];
    for i := 0 to |vals| - 1
      invariant |residuals| == i && forall j :: 0 <= j < i ==> residuals[j] == Residual(vals, base, j)
      modifies {}
    {
      residuals := residuals + [Minus(Minus(words[i + 1], words[i]), ToU64(base))];
    }
    assert residuals == Residuals(vals, base);
    PackedSizeExact(width, residuals);
    Pack(width, residuals, scratch, 17);
    HeadersThenPacked(d0, d1, d2, d3, scratch[..], ToU64(first), ToU64(base), width, residuals);
    r := Some(scratch[..]);
    assert scratch[..] == Payload(vals, p.value);
    PayloadIsDeltaPage(k, vals, p.value);
  }

  lemma NoDeltaPage(k: Kind, vals: seq<int>)
    requires |vals| < 2 || (Int64s(vals) && forall q :: ForParamsOf(Steps(vals), Some(q)) ==> q.width >= 8 * Width(k))
    ensures forall b :: !IsDeltaPage(k, vals, b)
  {
    hide ForParamsOf, Payload;
  }

  lemma PayloadIsDeltaPage(k: Kind, vals: seq<int>, p: Params)
    requires |vals| >= 2 && Int64s(vals) && ForParamsOf(Steps(vals), Some(p)) && p.width < 8 * Width(k) && IsInt64(p.base)
    ensures IsDeltaPage(k, vals, Payload(vals, p))
  {
    hide ForParamsOf, Payload;
  }

  lemma HeadersThenPacked(d0: seq<Byte>, d1: seq<Byte>, d2: seq<Byte>, d3: seq<Byte>, d4: seq<Byte>,
                          first: U64, base: U64, width: nat, rs: seq<U64>)
    requires |d0| == 17 + |Packed(width, rs)| && width < 256
    requires Wrote(d0, d1, 0, LE(first, 8)) && |d1| == |d0| && Wrote(d1, d2, 8, LE(base, 8)) && |d2| == |d0|
    requires d3 == d2[16 := width] && Wrote(d3, d4, 17, Packed(width, rs))
    ensures d4 == LE(first, 8) + LE(base, 8) + [width] + Packed(width, rs)
  {
    hide LE, Packed;
    assert d1[..8] == LE(first, 8);
    assert d2[..16] == LE(first, 8) + LE(base, 8);
    assert d3[..16] == d2[..16];
  }

  // The running sum of the residuals and the base.
  function Word(first: U64, base: U64, rs: seq<U64>, i: nat): (w: U64)
    requires i <= |rs|
  {
    if i == 0 then first else (Word(first, base, rs, i - 1) + rs[i - 1] + base) % U64_LIMIT
  }

  function RunningWords(first: U64, base: U64, rs: seq<U64>): (ws: seq<U64>)
    ensures |ws| == |rs| + 1 && forall i :: 0 <= i < |ws| ==> ws[i] == Word(first, base, rs, i)
  {
    seq<U64>(|rs| + 1, i requires 0 <= i < |rs| + 1 => Word(first, base, rs, i))
  }

  function Decoded(k: Kind, b: seq<Byte>, rows: nat): (vals: Option<seq<int>>) {
    if rows == 0 then (if |b| != 0 then None else Some([]))
    else if rows < 2 || |b| < 17 then None
    else
      var first, base, width := ToI64Of(b, 0), ToI64Of(b, 8), b[16];
      if width < 1 || width > 64 || |b| != 17 + PackedSize(rows - 1, width) then None
      else Rebuilt(k, RunningWords(ToU64(first), ToU64(base), AsU64s(width, b[17..], rows - 1)), 0)
  }

  method Decode(k: Kind, b: seq<Byte>, rows: nat) returns (vals: Option<seq<int>>)
    ensures vals == Decoded(k, b, rows)
  {
    hide Rebuilt, Unpacked, PackedSize, FromLE, Word;
    if rows == 0 {
      return if |b| != 0 then None else Some([]);
    }
    if rows < 2 || |b| < 17 {
      return None;
    }
    var first, base, width := ToI64Of(b, 0), ToI64Of(b, 8), b[16];
    if width < 1 || width > 64 {
      return None;
    }
    var expected := 17 + PackedSize(rows - 1, width);
    if |b| != expected {
      return None;
    }
    UnpackedAreU64s(width, b[17..], rows - 1);
    var residuals := Unpack(width, b[17..], rows - 1);
    ghost var rs := AsU64s(width, b[17..], rows - 1);
    FirstWord(ToU64(first), ToU64(base), rs);
    var words: seq<U64> := [ToU64(first)];
    for i := 1 to rows
      invariant |words| == i && forall j :: 0 <= j < i ==> words[j] == Word(ToU64(first), ToU64(base), rs, j)
    {
      NextWord(ToU64(first), ToU64(base), rs, i);
      words := words + [(words[i - 1] + residuals[i - 1] + ToU64(base)) % U64_LIMIT];
    }
    assert words == RunningWords(ToU64(first), ToU64(base), rs);
    vals := WriteForValues(k, words, 0);
  }

  lemma FirstWord(first: U64, base: U64, rs: seq<U64>)
    ensures Word(first, base, rs, 0) == first
  {
  }

  lemma NextWord(first: U64, base: U64, rs: seq<U64>, i: nat)
    requires 0 < i <= |rs|
    ensures Word(first, base, rs, i) == (Word(first, base, rs, i - 1) + rs[i - 1] + base) % U64_LIMIT
  {
  }

  // Adding back what was subtracted restores the word.
  lemma AddBack(a: int, b: int, base: int)
    requires IsInt64(a) && IsInt64(b) && IsInt64(base)
    ensures (ToU64(b) + Minus(Minus(ToU64(a), ToU64(b)), ToU64(base)) + ToU64(base)) % U64_LIMIT == ToU64(a)
  {
  }

  lemma {:induction false} WordsRestored(vals: seq<int>, base: int, i: nat)
    requires vals != [] && Int64s(vals) && IsInt64(base) && i < |vals|
    ensures Word(ToU64(vals[0]), ToU64(base), Residuals(vals, base), i) == ToU64(vals[i])
  {
    hide Word;
    if i == 0 {
      FirstWord(ToU64(vals[0]), ToU64(base), Residuals(vals, base));
    } else {
      WordsRestored(vals, base, i - 1);
      NextWord(ToU64(vals[0]), ToU64(base), Residuals(vals, base), i);
      AddBack(vals[i], vals[i - 1], base);
    }
  }

  // The delta round trip, for values whose differences wrap included.
  lemma RoundTrip(k: Kind, vals: seq<int>, b: seq<Byte>)
    requires Page(k, vals) && IsDeltaPage(k, vals, b)
    ensures Decoded(k, b, |vals|) == Some(vals)
    ensures |b| > 17
  {
    hide ForParamsOf, LE, FromLE, Packed, Unpacked, PackedSize, Pow2, Residuals, Word;
    var p :| |vals| >= 2 && ForParamsOf(Steps(vals), Some(p)) && p.width < 8 * Width(k) && IsInt64(p.base) && b == Payload(vals, p);
    ResidualsFit(vals, p);
    var rs := Residuals(vals, p.base);
    PackedRoundTrip(p.width, rs);
    PackedSizePositive(|vals| - 1, p.width);
    var f, m, tail := LE(ToU64(vals[0]), 8), LE(ToU64(p.base), 8), [p.width] + Packed(p.width, rs);
    assert b == [] + f + (m + tail) && b == f + m + tail;
    StoredInt64([], vals[0], m + tail);
    StoredInt64(f, p.base, tail);
    assert b[16] == p.width && b[17..] == Packed(p.width, rs);
    assert AsU64s(p.width, b[17..], |vals| - 1) == rs;
    RunningRebuilds(k, vals, p.base);
  }

  lemma RunningRebuilds(k: Kind, vals: seq<int>, base: int)
    requires vals != [] && Page(k, vals) && Int64s(vals) && IsInt64(base)
    ensures Rebuilt(k, RunningWords(ToU64(vals[0]), ToU64(base), Residuals(vals, base)), 0) == Some(vals)
  {
    hide Word, Residuals;
    var ws := RunningWords(ToU64(vals[0]), ToU64(base), Residuals(vals, base));
    forall i | 0 <= i < |vals| ensures Restored(ws[i], 0) == vals[i] {
      WordsRestored(vals, base, i);
      RestoreValue(vals[i], 0);
    }
    RebuiltIs(k, ws, 0, vals);
  }
}
