// The integer codecs: plain, constant, sequence, frame of reference and delta.
// Each encoder either skips a page or writes bytes that decode to the page.
module IntCodecs {
  import opened Options
  import opened Bytes
  import opened Bitpack
  import opened IntPages

  // Zero means no limit on the encoded length.
  predicate TooLong(n: nat, maxLen: nat) {
    maxLen > 0 && n > maxLen
  }

  // ----- values as words -----

  function Words(vals: seq<int>): (ws: seq<U64>)
    requires Int64s(vals)
    ensures |ws| == |vals| && forall i :: 0 <= i < |vals| ==> ws[i] == ToU64(vals[i])
  {
    seq<U64>(|vals|, i requires 0 <= i < |vals| => ToU64(vals[i]))
  }

  method ReadForValues(vals: seq<int>) returns (ws: seq<U64>)
    requires Int64s(vals)
    ensures ws == Words(vals)
  {
    ws := [];
    for i := 0 to |vals|
      invariant |ws| == i && forall k :: 0 <= k < i ==> ws[k] == ToU64(vals[k])
    {
      ws := ws + [ToU64(vals[i])];
    }
  }

  // A word added to the base in int64 arithmetic.
  function Restored(r: U64, base: int): int {
    Wrap64(base + ToI64(r))
  }

  // Values rebuilt from words, or nothing when one does not fit the kind.
  function Rebuilt(k: Kind, rs: seq<U64>, base: int): (vals: Option<seq<int>>)
    ensures vals.Some? ==> |vals.value| == |rs|
  {
    if forall i :: 0 <= i < |rs| ==> InKind(k, Restored(rs[i], base))
    then Some(seq(|rs|, i requires 0 <= i < |rs| => Restored(rs[i], base)))
    else None
  }

  method WriteForValues(k: Kind, rs: seq<U64>, base: int) returns (vals: Option<seq<int>>)
    ensures vals == Rebuilt(k, rs, base)
  {
    hide Restored;
    var out: seq<int> := [];
    for i := 0 to |rs|
      invariant |out| == i
      invariant forall j :: 0 <= j < i ==> out[j] == Restored(rs[j], base) && InKind(k, out[j])
    {
      var val := Restored(rs[i], base);
      if !InKind(k, val) {
        return None;
      }
      out := out + [val];
    }
    assert out == seq(|rs|, i requires 0 <= i < |rs| => Restored(rs[i], base));
    vals := Some(out);
  }

  // (a - b) mod 2^64.
  function Minus(a: int, b: int): U64 {
    (a - b) % U64_LIMIT
  }

  lemma RestoreValue(v: int, base: int)
    requires IsInt64(v) && IsInt64(base)
    ensures Restored(Minus(ToU64(v), ToU64(base)), base) == v
  {
    var r := Minus(ToU64(v), ToU64(base));
    assert (base + ToI64(r)) % U64_LIMIT == v % U64_LIMIT;
    WrapAgrees(base + ToI64(r), v);
  }

  lemma MinusIsExact(v: int, base: int)
    requires IsInt64(v) && IsInt64(base) && base <= v
    ensures Minus(ToU64(v), ToU64(base)) == v - base
  {
  }

  // ----- frame of reference -----

  function ForResiduals(vals: seq<int>, base: int): (rs: seq<U64>)
    requires Int64s(vals) && IsInt64(base)
    ensures |rs| == |vals| && forall i :: 0 <= i < |vals| ==> rs[i] == Minus(ToU64(vals[i]), ToU64(base))
  {
    seq<U64>(|vals|, i requires 0 <= i < |vals| => Minus(ToU64(vals[i]), ToU64(base)))
  }

  function ForPayload(vals: seq<int>, p: Params): (b: seq<Byte>)
    requires Int64s(vals) && IsInt64(p.base) && p.width < 256
  {
    LE(ToU64(p.base), 8) + [p.width] + Packed(p.width, ForResiduals(vals, p.base))
  }

  // Parameters a scan of the page comes up with.
  lemma ParamsFacts(vals: seq<int>, p: Params)
    requires vals != [] && Int64s(vals) && ForParamsOf(vals, Some(p))
    ensures IsInt64(p.base) && IsMin(p.base, vals) && 1 <= p.width <= 64
    ensures forall i :: 0 <= i < |vals| ==> vals[i] - p.base < Pow2(p.width)
  {
    hide Pow2;
    var lo, hi :| IsMin(lo, vals) && IsMax(hi, vals) && Some(p) == if lo == hi then None else Some(Params(lo, BitLength(hi - lo)));
    ExtremesInt64(vals, lo, hi);
    ExtremesMeet(vals, lo, hi);
    BitLengthOfU64(hi - lo);
  }

  lemma ParamsAreUnique(vals: seq<int>, p: Option<Params>, q: Option<Params>)
    requires ForParamsOf(vals, p) && ForParamsOf(vals, q)
    ensures p == q
  {
    var a, b :| IsMin(a, vals) && IsMax(b, vals) && p == if a == b then None else Some(Params(a, BitLength(b - a)));
    var c, d :| IsMin(c, vals) && IsMax(d, vals) && q == if c == d then None else Some(Params(c, BitLength(d - c)));
    ExtremesAreUnique(vals, a, c);
    ExtremesAreUnique(vals, b, d);
  }

  lemma ResidualsFit(vals: seq<int>, p: Params)
    requires vals != [] && Int64s(vals) && ForParamsOf(vals, Some(p))
    ensures IsInt64(p.base) && 1 <= p.width <= 64
    ensures forall i :: 0 <= i < |vals| ==> ForResiduals(vals, p.base)[i] == vals[i] - p.base < Pow2(p.width)
  {
    hide Pow2;
    ParamsFacts(vals, p);
    forall i | 0 <= i < |vals| ensures ForResiduals(vals, p.base)[i] == vals[i] - p.base {
      MinusIsExact(vals[i], p.base);
    }
  }

  // The parameters, from the facts when they are there, and whether the codec applies.
  method ForFits(k: Kind, vals: seq<int>, facts: Option<Facts>) returns (p: Option<Params>)
    requires Page(k, vals) && (facts.Some? ==> vals != [] && FactsOf(vals, facts.value))
    ensures p.Some? ==> vals != [] && ForParamsOf(vals, p) && p.value.width < 8 * Width(k)
    ensures p.None? && vals != [] ==> forall q :: ForParamsOf(vals, Some(q)) ==> q.width >= 8 * Width(k)
  {
    hide ForParamsOf;
    PageIsInt64s(k, vals);
    if |vals| == 0 {
      return None;
    }
    if facts.Some? {
      var f := facts.value;
      p := if f.forWidth == 0 then None else Some(Params(f.forBase, f.forWidth));
    } else {
      p := ForParams(vals);
    }
    forall q | ForParamsOf(vals, Some(q)) ensures p == Some(q) { ParamsAreUnique(vals, p, Some(q)); }
    if p.Some? && p.value.width >= 8 * Width(k) {
      return None;
    }
  }

  method ForEncode(k: Kind, vals: seq<int>, facts: Option<Facts>, maxLen: nat) returns (r: Option<seq<Byte>>)
    requires Page(k, vals) && (facts.Some? ==> vals != [] && FactsOf(vals, facts.value))
    ensures r.Some? ==> IsForPage(k, vals, r.value) && (maxLen == 0 || |r.value| <= maxLen)
    ensures r.None? ==> forall b :: IsForPage(k, vals, b) ==> 0 < maxLen < |b|
  {
    hide ForParamsOf, LE, Packed, PackedSize, Wrote, ForResiduals, Pow2, InKind, ToU64, Minus, FactsOf;
    PageIsInt64s(k, vals);
    var p := ForFits(k, vals, facts);
    if p.None? {
      return None;
    }
    ResidualsFit(vals, p.value);
    var base, width := p.value.base, p.value.width;
    var n := 9 + PackedSize(|vals|, width);
    forall b | IsForPage(k, vals, b) ensures |b| == n { ForPageSize(k, vals, b, p.value); }
    if TooLong(n, maxLen) {
      return None;
    }
    var scratch := new Byte[n];
    ghost var d0 := scratch[..];
    PutUint64(scratch, 0, ToU64(base));
    ghost var d1 := scratch[..];
    scratch[8] := width;
    ghost var d2 := scratch[..];
    var residuals := ReadForValues(vals);
    for i := 0 to |residuals|
      invariant |residuals| == |vals|
      invariant forall j :: 0 <= j < i ==> residuals[j] == Minus(ToU64(vals[j]), ToU64(base))
      invariant forall j :: i <= j < |vals| ==> residuals[j] == ToU64(vals[j])
      modifies {}
    {
      residuals := residuals[i := Minus(residuals[i], ToU64(base))];
    }
    assert residuals == ForResiduals(vals, base);
    PackedSizeExact(width, residuals);
    Pack(width, residuals, scratch, 9);
    HeaderThenPacked(d0, d1, d2, scratch[..], ToU64(base), width, residuals);
    r := Some(scratch[..]);
    assert scratch[..] == ForPayload(vals, p.value);
  }

  lemma HeaderThenPacked(d0: seq<Byte>, d1: seq<Byte>, d2: seq<Byte>, d3: seq<Byte>, base: U64, width: nat, rs: seq<U64>)
    requires |d0| == 9 + |Packed(width, rs)| && width < 256
    requires Wrote(d0, d1, 0, LE(base, 8)) && |d1| == |d0| && d2 == d1[8 := width] && Wrote(d2, d3, 9, Packed(width, rs))
    ensures d3 == LE(base, 8) + [width] + Packed(width, rs)
  {
    hide LE, Packed;
    assert d2[..8] == LE(base, 8);
  }

  // The bytes a page of the kind is encoded to.
  ghost predicate IsForPage(k: Kind, vals: seq<int>, b: seq<Byte>) {
    exists p :: vals != [] && Int64s(vals) && ForParamsOf(vals, Some(p)) && p.width < 8 * Width(k)
      && IsInt64(p.base) && b == ForPayload(vals, p)
  }

  lemma ForPageSize(k: Kind, vals: seq<int>, b: seq<Byte>, p: Params)
    requires IsForPage(k, vals, b) && ForParamsOf(vals, Some(p))
    ensures |b| == 9 + PackedSize(|vals|, p.width)
  {
    hide ForParamsOf, LE, Packed, PackedSize;
    var q :| Int64s(vals) && ForParamsOf(vals, Some(q)) && q.width < 8 * Width(k) && IsInt64(q.base) && b == ForPayload(vals, q);
    ParamsAreUnique(vals, Some(p), Some(q));
    PackedSizeExact(q.width, ForResiduals(vals, q.base));
  }

  function ForDecoded(k: Kind, b: seq<Byte>, rows: nat): (vals: Option<seq<int>>) {
    if rows == 0 then (if |b| != 0 then None else Some([]))
    else if |b| < 9 then None
    else
      var base, width := ToI64Of(b, 0), b[8];
      if width < 1 || width > 64 || |b| != 9 + PackedSize(rows, width) then None
      else Rebuilt(k, AsU64s(width, b[9..], rows), base)
  }

  // An int64 stored at a position.
  function ToI64Of(b: seq<Byte>, pos: nat): (v: int)
    requires pos + 8 <= |b|
    ensures IsInt64(v)
  {
    Widths();
    ToI64(FromLE(b[pos..pos + 8]))
  }

  // Unpacked values of at most 64 bits are words.
  function AsU64s(width: nat, b: seq<Byte>, rows: nat): (rs: seq<U64>)
    requires width <= 64 && PackedSize(rows, width) <= |b|
    ensures |rs| == rows && rs == Unpacked(width, b, rows)
  {
    UnpackedAreU64s(width, b, rows);
    Unpacked(width, b, rows)
  }

  lemma UnpackedAreU64s(width: nat, b: seq<Byte>, rows: nat)
    requires width <= 64 && PackedSize(rows, width) <= |b|
    ensures forall i :: 0 <= i < rows ==> Unpacked(width, b, rows)[i] < U64_LIMIT
  {
    hide Pow2, PackedSize;
    forall i | 0 <= i < rows ensures Unpacked(width, b, rows)[i] < U64_LIMIT {
      RowsFit(rows, width, |b|, i);
      NumberBound(Spine(width, b, i / GROUP, i % GROUP, width));
      Pow2Of64();
      Pow2Grows(width, 64);
    }
  }

  lemma {:induction false} Pow2Grows(m: nat, n: nat)
    requires m <= n
    ensures Pow2(m) <= Pow2(n)
  {
    if m < n { Pow2Grows(m, n - 1); }
  }

  method ForDecode(k: Kind, b: seq<Byte>, rows: nat) returns (vals: Option<seq<int>>)
    ensures vals == ForDecoded(k, b, rows)
  {
    hide Rebuilt, Unpacked, PackedSize, FromLE;
    if rows == 0 {
      return if |b| != 0 then None else Some([]);
    }
    if |b| < 9 {
      return None;
    }
    var base, width := ToI64Of(b, 0), b[8];
    if width < 1 || width > 64 {
      return None;
    }
    var expected := 9 + PackedSize(rows, width);
    if |b| != expected {
      return None;
    }
    UnpackedAreU64s(width, b[9..], rows);
    var residuals := Unpack(width, b[9..], rows);
    vals := WriteForValues(k, residuals, base);
  }

  lemma StoredInt64(head: seq<Byte>, v: int, tail: seq<Byte>)
    requires IsInt64(v)
    ensures ToI64Of(head + LE(ToU64(v), 8) + tail, |head|) == v
  {
    hide LE, FromLE;
    Widths();
    FromLEOfLE(ToU64(v), 8);
    assert (head + LE(ToU64(v), 8) + tail)[|head|..|head| + 8] == LE(ToU64(v), 8);
  }

  // The frame-of-reference round trip.
  lemma ForRoundTrip(k: Kind, vals: seq<int>, b: seq<Byte>)
    requires Page(k, vals) && IsForPage(k, vals, b)
    ensures ForDecoded(k, b, |vals|) == Some(vals)
    ensures |b| > 9
  {
    hide ForParamsOf, LE, FromLE, Packed, Unpacked, PackedSize, Pow2, ForResiduals;
    var p :| vals != [] && ForParamsOf(vals, Some(p)) && p.width < 8 * Width(k) && IsInt64(p.base) && b == ForPayload(vals, p);
    ResidualsFit(vals, p);
    var rs := ForResiduals(vals, p.base);
    PackedRoundTrip(p.width, rs);
    PackedSizePositive(|vals|, p.width);
    assert b == [] + LE(ToU64(p.base), 8) + ([p.width] + Packed(p.width, rs));
    StoredInt64([], p.base, [p.width] + Packed(p.width, rs));
    assert b[8] == p.width && b[9..] == Packed(p.width, rs);
    ForRebuilds(k, vals, p.base);
    assert ToI64Of(b, 0) == p.base;
    assert AsU64s(p.width, b[9..], |vals|) == rs;
  }

  lemma ForRebuilds(k: Kind, vals: seq<int>, base: int)
    requires Page(k, vals) && Int64s(vals) && IsInt64(base)
    ensures Rebuilt(k, ForResiduals(vals, base), base) == Some(vals)
  {
    hide Restored;
    var rs := ForResiduals(vals, base);
    forall i | 0 <= i < |vals| ensures Restored(rs[i], base) == vals[i] { RestoreValue(vals[i], base); }
    RebuiltIs(k, rs, base, vals);
  }

  lemma RebuiltIs(k: Kind, rs: seq<U64>, base: int, vals: seq<int>)
    requires |rs| == |vals| && Page(k, vals) && forall i :: 0 <= i < |rs| ==> Restored(rs[i], base) == vals[i]
    ensures Rebuilt(k, rs, base) == Some(vals)
  {
    hide Restored;
    assert seq(|rs|, i requires 0 <= i < |rs| => Restored(rs[i], base)) == vals;
  }

  lemma PackedSizePositive(rows: nat, width: nat)
    requires rows > 0 && width > 0
    ensures PackedSize(rows, width) > 0
  {
    assert Blocks(rows) >= 1;
    Monotone(1, Blocks(rows), width * 128);
    assert Blocks(rows) * (width * 128) == Blocks(rows) * width * 128;
  }
}
