// Chunked frame of reference: every 1024 rows have a base and a width of their own.
module Pcodec {
  import opened Options
  import opened Bytes
  import opened Bitpack
  import opened IntPages
  import opened IntCodecs

  const CHUNK: nat := BLOCK

  function Chunks(rows: nat): nat {
    (rows + CHUNK - 1) / CHUNK
  }

  function Least(a: nat, b: nat): nat { if a < b then a else b }

  // Chunk c of the page.
  function Chunk(vals: seq<int>, c: nat): (s: seq<int>)
    requires c < Chunks(|vals|)
    ensures 0 < |s| <= CHUNK && |s| == Least(CHUNK * c + CHUNK, |vals|) - CHUNK * c
  {
    vals[CHUNK * c..Least(CHUNK * c + CHUNK, |vals|)]
  }

  // ----- one chunk -----

  // The smallest value, and the bits the distances from it need; width 0 means all values are equal.
  ghost predicate ChunkParamsOf(k: Kind, vals: seq<int>, p: Params) {
    exists lo, hi :: IsMin(lo, vals) && IsMax(hi, vals) && p == Params(lo, Least(BitLength(hi - lo), 8 * Width(k)))
  }

  method ChunkParams(k: Kind, vals: seq<int>) returns (p: Params)
    requires vals != [] && Page(k, vals)
    ensures ChunkParamsOf(k, vals, p)
  {
    PageIsInt64s(k, vals);
    var lo, hi := vals[0], vals[0];
    for i := 1 to |vals|
      invariant IsMin(lo, vals[..i]) && IsMax(hi, vals[..i])
    {
      ExtremeStep(vals, i, lo, hi);
      if vals[i] < lo {
        lo := vals[i];
      }
      if vals[i] > hi {
        hi := vals[i];
      }
    }
    assert vals[..|vals|] == vals;
    ExtremesMeet(vals, lo, hi);
    SpanIsExact(hi, lo);
    var span := Span(hi, lo);
    NoBits(span);
    if span == 0 {
      return Params(lo, 0);
    }
    p := Params(lo, Least(BitLength(span), 8 * Width(k)));
  }

  // The cap at the storage width never bites: values of the kind differ by less.
  lemma ChunkFits(k: Kind, vals: seq<int>, p: Params)
    requires vals != [] && Page(k, vals) && Int64s(vals) && ChunkParamsOf(k, vals, p)
    ensures IsInt64(p.base) && p.width <= 64
    ensures forall i :: 0 <= i < |vals| ==> ForResiduals(vals, p.base)[i] == vals[i] - p.base < Pow2(p.width)
    ensures p.width == 0 ==> forall i :: 0 <= i < |vals| ==> vals[i] == p.base
  {
    hide Pow2, BitLength;
    var lo, hi :| IsMin(lo, vals) && IsMax(hi, vals) && p == Params(lo, Least(BitLength(hi - lo), 8 * Width(k)));
    ExtremesInt64(vals, lo, hi);
    ExtremesMeet(vals, lo, hi);
    KindSpan(k, hi - lo);
    BitLengthIsLeast(hi - lo, 8 * Width(k));
    BitLengthIsLeast(hi - lo, BitLength(hi - lo));
    NoBits(hi - lo);
    forall i | 0 <= i < |vals| ensures ForResiduals(vals, p.base)[i] == vals[i] - p.base {
      MinusIsExact(vals[i], p.base);
    }
  }

  lemma KindSpan(k: Kind, d: nat)
    requires exists a, b :: InKind(k, a) && InKind(k, b) && d == a - b
    ensures d < Pow2(8 * Width(k))
  {
    hide Pow2;
    Pow2Of64();
    Pow2Add(8, 8);
    Pow2Add(16, 16);
    assert Pow2(16) == 0x1_0000;
    assert Pow2(32) == 0x1_0000_0000;
  }

  function ChunkPayload(vals: seq<int>, p: Params): (b: seq<Byte>)
    requires Int64s(vals) && IsInt64(p.base) && p.width < 256
    ensures |b| >= 9
  {
    LE(ToU64(p.base), 8) + [p.width] + if p.width > 0 then Packed(p.width, ForResiduals(vals, p.base)) else []
  }

  // ----- the page -----

  ghost predicate ParamsOfAll(k: Kind, vals: seq<int>, ps: seq<Params>) {
    && |ps| == Chunks(|vals|)
    && (forall c :: 0 <= c < |ps| ==> ChunkParamsOf(k, Chunk(vals, c), ps[c]) && IsInt64(ps[c].base) && ps[c].width <= 64)
  }

  // The first n chunks.
  function Body(vals: seq<int>, ps: seq<Params>, n: nat): (b: seq<Byte>)
    requires Int64s(vals) && n <= |ps| == Chunks(|vals|)
    requires forall c :: 0 <= c < |ps| ==> IsInt64(ps[c].base) && ps[c].width <= 64
  {
    if n == 0 then []
    else
      assert Int64s(Chunk(vals, n - 1));
      Body(vals, ps, n - 1) + ChunkPayload(Chunk(vals, n - 1), ps[n - 1])
  }

  // The chunk count is stored in 16 bits.
  function Payload(vals: seq<int>, ps: seq<Params>): (b: seq<Byte>)
    requires Int64s(vals) && |ps| == Chunks(|vals|)
    requires forall c :: 0 <= c < |ps| ==> IsInt64(ps[c].base) && ps[c].width <= 64
  {
    LE(CHUNK, 2) + LE(Chunks(|vals|) % U16_LIMIT, 2) + Body(vals, ps, |ps|)
  }

  ghost predicate IsChunkedPage(k: Kind, vals: seq<int>, b: seq<Byte>) {
    exists ps :: |vals| >= 2 * CHUNK && Int64s(vals) && ParamsOfAll(k, vals, ps) && b == Payload(vals, ps)
  }

  method Encode(k: Kind, vals: seq<int>, maxLen: nat) returns (r: Option<seq<Byte>>)
    requires Page(k, vals)
    ensures r.Some? ==> IsChunkedPage(k, vals, r.value) && (maxLen == 0 || |r.value| <= maxLen)
    ensures r.None? ==> forall b :: IsChunkedPage(k, vals, b) ==> 0 < maxLen < |b|
  {
    hide ChunkParamsOf, LE, Packed, PackedSize, Body, ChunkPayload;
    PageIsInt64s(k, vals);
    if |vals| < 2 * CHUNK {
      return None;
    }
    var chunks := Chunks(|vals|);
    var ps: seq<Params>, total := [], 4;
    for c := 0 to chunks
      invariant |ps| == c
      invariant forall i :: 0 <= i < c ==> ChunkParamsOf(k, Chunk(vals, i), ps[i]) && IsInt64(ps[i].base) && ps[i].width <= 64
      invariant total == 4 + SizeOf(vals, ps, c)
    {
      var s := Chunk(vals, c);
      PageIsInt64s(k, s);
      var p := ChunkParams(k, s);
      ChunkFits(k, s, p);
      SizeStable(vals, ps, p, c);
      total := total + 9;
      if p.width > 0 {
        total := total + PackedSize(|s|, p.width);
      }
      ps := ps + [p];
    }
    BodySize(vals, ps, chunks);
    forall b | IsChunkedPage(k, vals, b) ensures |b| == total { ChunkedPageIsUnique(k, vals, b, ps); }
    if TooLong(total, maxLen) {
      return None;
    }
    r := WritePage(k, vals, ps);
  }

  lemma ChunkParamsAreUnique(k: Kind, vals: seq<int>, p: Params, q: Params)
    requires ChunkParamsOf(k, vals, p) && ChunkParamsOf(k, vals, q)
    ensures p == q
  {
    var a, b :| IsMin(a, vals) && IsMax(b, vals) && p == Params(a, Least(BitLength(b - a), 8 * Width(k)));
    var c, d :| IsMin(c, vals) && IsMax(d, vals) && q == Params(c, Least(BitLength(d - c), 8 * Width(k)));
    ExtremesAreUnique(vals, a, c);
    ExtremesAreUnique(vals, b, d);
  }

  lemma ChunkedPageIsUnique(k: Kind, vals: seq<int>, b: seq<Byte>, ps: seq<Params>)
    requires IsChunkedPage(k, vals, b) && ParamsOfAll(k, vals, ps)
    ensures Int64s(vals) && b == Payload(vals, ps)
  {
    hide ChunkParamsOf, Body;
    var qs :| Int64s(vals) && ParamsOfAll(k, vals, qs) && b == Payload(vals, qs);
    forall c | 0 <= c < |ps| ensures ps[c] == qs[c] { ChunkParamsAreUnique(k, Chunk(vals, c), ps[c], qs[c]); }
    assert ps == qs;
  }

  lemma ChunkedPagesAgree(k: Kind, vals: seq<int>, a: seq<Byte>, b: seq<Byte>)
    requires IsChunkedPage(k, vals, a) && IsChunkedPage(k, vals, b)
    ensures a == b
  {
    hide ChunkParamsOf, Body, LE;
    var ps :| Int64s(vals) && ParamsOfAll(k, vals, ps) && a == Payload(vals, ps);
    ChunkedPageIsUnique(k, vals, b, ps);
  }

  lemma ChunkedPageSize(k: Kind, vals: seq<int>, b: seq<Byte>)
    requires IsChunkedPage(k, vals, b)
    ensures |b| >= 4 + 9 * Chunks(|vals|) && Chunks(|vals|) >= 2
  {
    hide ChunkParamsOf, Body, LE;
    var ps :| Int64s(vals) && ParamsOfAll(k, vals, ps) && b == Payload(vals, ps);
    BodySize(vals, ps, |ps|);
    HeadersTake(vals, ps, |ps|);
  }

  lemma {:induction false} HeadersTake(vals: seq<int>, ps: seq<Params>, n: nat)
    requires n <= |ps| && n <= Chunks(|vals|)
    ensures SizeOf(vals, ps, n) >= 9 * n
  {
    hide PackedSize;
    if n > 0 { HeadersTake(vals, ps, n - 1); }
  }

  function SizeOf(vals: seq<int>, ps: seq<Params>, n: nat): nat
    requires n <= |ps| && n <= Chunks(|vals|)
  {
    if n == 0 then 0
    else SizeOf(vals, ps, n - 1) + 9 + if ps[n - 1].width > 0 then PackedSize(|Chunk(vals, n - 1)|, ps[n - 1].width) else 0
  }

  lemma {:induction false} SizePrefix(vals: seq<int>, ps: seq<Params>, p: Params, n: nat)
    requires n <= |ps| && n <= Chunks(|vals|)
    ensures SizeOf(vals, ps + [p], n) == SizeOf(vals, ps, n)
  {
    hide PackedSize;
    if n > 0 { SizePrefix(vals, ps, p, n - 1); }
  }

  lemma SizeStable(vals: seq<int>, ps: seq<Params>, p: Params, c: nat)
    requires |ps| == c < Chunks(|vals|)
    ensures SizeOf(vals, ps + [p], c + 1)
      == SizeOf(vals, ps, c) + 9 + if p.width > 0 then PackedSize(|Chunk(vals, c)|, p.width) else 0
  {
    SizePrefix(vals, ps, p, c);
  }

  lemma {:induction false} BodySize(vals: seq<int>, ps: seq<Params>, n: nat)
    requires Int64s(vals) && n <= |ps| == Chunks(|vals|)
    requires forall c :: 0 <= c < |ps| ==> IsInt64(ps[c].base) && ps[c].width <= 64
    ensures |Body(vals, ps, n)| == SizeOf(vals, ps, n)
  {
    hide LE, Packed, PackedSize;
    if n > 0 {
      BodySize(vals, ps, n - 1);
      PackedSizeExact(ps[n - 1].width, ForResiduals(Chunk(vals, n - 1), ps[n - 1].base));
    }
  }

  method WritePage(k: Kind, vals: seq<int>, ps: seq<Params>) returns (r: Option<seq<Byte>>)
    requires |vals| >= 2 * CHUNK && Int64s(vals) && ParamsOfAll(k, vals, ps)
    ensures r == Some(Payload(vals, ps)) && IsChunkedPage(k, vals, r.value)
  {
    hide ChunkParamsOf, LE, Packed, PackedSize, Wrote, Body;
    var size := 4 + SizeOf(vals, ps, |ps|);
    var scratch := new Byte[size];
    ghost var head := LE(CHUNK, 2) + LE(Chunks(|vals|) % U16_LIMIT, 2);
    PutUint16s(scratch, CHUNK, Chunks(|vals|) % U16_LIMIT);
    NoBody(vals, ps);
    var off := 4;
    ghost var d0 := scratch[..];
    WroteNothing(d0, 4);
    for c := 0 to |ps|
      invariant off == 4 + SizeOf(vals, ps, c) <= size
      invariant Wrote(d0, scratch[..], 4, Body(vals, ps, c))
    {
      SizeGrows(vals, ps, c + 1, |ps|);
      BodySize(vals, ps, c);
      var s := Chunk(vals, c);
      assert Int64s(s);
      ghost var d1 := scratch[..];
      off := WriteChunk(scratch, off, s, ps[c]);
      BodyStep(vals, ps, c);
      WroteMore(d0, d1, scratch[..], 4, Body(vals, ps, c), ChunkPayload(s, ps[c]));
    }
    BodySize(vals, ps, |ps|);
    WroteRest(d0, scratch[..], head, Body(vals, ps, |ps|));
    r := Some(scratch[..]);
  }

  lemma {:induction false} SizeGrows(vals: seq<int>, ps: seq<Params>, m: nat, n: nat)
    requires m <= n <= |ps| && n <= Chunks(|vals|)
    ensures SizeOf(vals, ps, m) <= SizeOf(vals, ps, n)
  {
    if m < n { SizeGrows(vals, ps, m, n - 1); }
  }

  lemma NoBody(vals: seq<int>, ps: seq<Params>)
    requires Int64s(vals) && |ps| == Chunks(|vals|)
    requires forall c :: 0 <= c < |ps| ==> IsInt64(ps[c].base) && ps[c].width <= 64
    ensures Body(vals, ps, 0) == []
  {
  }

  lemma BodyStep(vals: seq<int>, ps: seq<Params>, c: nat)
    requires Int64s(vals) && c < |ps| == Chunks(|vals|)
    requires forall i :: 0 <= i < |ps| ==> IsInt64(ps[i].base) && ps[i].width <= 64
    ensures Int64s(Chunk(vals, c)) && Body(vals, ps, c + 1) == Body(vals, ps, c) + ChunkPayload(Chunk(vals, c), ps[c])
  {
    hide ChunkPayload;
  }

  lemma WroteRest(d0: seq<Byte>, d: seq<Byte>, head: seq<Byte>, body: seq<Byte>)
    requires |head| == 4 && |d0| == 4 + |body| && d0[..4] == head && Wrote(d0, d, 4, body)
    ensures d == head + body
  {
    assert d0[4 + |body|..] == [];
  }

  method PutUint16s(dst: array<Byte>, a: nat, b: nat)
    requires dst.Length >= 4
    modifies dst
    ensures dst[..4] == LE(a, 2) + LE(b, 2)
  {
    var x, y := LE(a, 2), LE(b, 2);
    dst[0], dst[1], dst[2], dst[3] := x[0], x[1], y[0], y[1];
  }

  method WriteChunk(dst: array<Byte>, off: nat, s: seq<int>, p: Params) returns (next: nat)
    requires Int64s(s) && IsInt64(p.base) && p.width <= 64
    requires off + 9 + (if p.width > 0 then PackedSize(|s|, p.width) else 0) <= dst.Length
    modifies dst
    ensures Wrote(old(dst[..]), dst[..], off, ChunkPayload(s, p))
    ensures next == off + 9 + if p.width > 0 then PackedSize(|s|, p.width) else 0
  {
    hide LE, Packed, PackedSize, Wrote, ForResiduals;
    ghost var d0 := dst[..];
    PutUint64(dst, off, ToU64(p.base));
    ghost var d1 := dst[..];
    dst[off + 8] := p.width;
    ByteWrote(d1, dst[..], off + 8, p.width);
    WroteMore(d0, d1, dst[..], off, LE(ToU64(p.base), 8), [p.width]);
    next := off + 9;
    if p.width > 0 {
      ghost var d2 := dst[..];
      var residuals: seq<U64> := [];
      for i := 0 to |s|
        invariant |residuals| == i && forall j :: 0 <= j < i ==> residuals[j] == Minus(ToU64(s[j]), ToU64(p.base))
        modifies {}
      {
        residuals := residuals + [Minus(ToU64(s[i]), ToU64(p.base))];
      }
      assert residuals == ForResiduals(s, p.base);
      var size := PackedSize(|s|, p.width);
      Pack(p.width, residuals, dst, next);
      PackedSizeExact(p.width, residuals);
      WroteMore(d0, d2, dst[..], off, LE(ToU64(p.base), 8) + [p.width], Packed(p.width, residuals));
      next := next + size;
    } else {
      assert LE(ToU64(p.base), 8) + [p.width] + [] == LE(ToU64(p.base), 8) + [p.width];
    }
  }

  lemma ByteWrote(d: seq<Byte>, d': seq<Byte>, at: nat, b: Byte)
    requires at < |d| && d' == d[at := b]
    ensures Wrote(d, d', at, [b])
  {
  }

  // ----- decoding -----

  // A stored chunk of n rows at off: its words, and where it ends.
  function ReadChunk(b: seq<Byte>, off: nat, n: nat): (r: Option<(seq<U64>, nat)>)
    ensures r.Some? ==> |r.value.0| == n && off < r.value.1 <= |b|
  {
    if off + 9 > |b| then None
    else
      var base, width := ToI64Of(b, off), b[off + 8];
      if width > 64 then None
      else if width == 0 then Some((seq<U64>(n, _ => ToU64(base)), off + 9))
      else
        var size := PackedSize(n, width);
        if off + 9 + size > |b| then None
        else Some((Lifted(AsU64s(width, b[off + 9..off + 9 + size], n), base), off + 9 + size))
  }

  // Residuals with the base added back, as words.
  function Lifted(rs: seq<U64>, base: int): (ws: seq<U64>)
    ensures |ws| == |rs| && forall i :: 0 <= i < |rs| ==> ws[i] == ToU64(Restored(rs[i], base))
  {
    seq<U64>(|rs|, i requires 0 <= i < |rs| => ToU64(Restored(rs[i], base)))
  }

  // The words of the rows from start on.
  function ReadChunks(b: seq<Byte>, off: nat, chunkRows: nat, start: nat, rows: nat): (ws: Option<seq<U64>>)
    requires chunkRows > 0 && start <= rows
    ensures ws.Some? ==> |ws.value| == rows - start
    decreases rows - start
  {
    if start == rows then (if off != |b| then None else Some([]))
    else
      var n := Least(chunkRows, rows - start);
      match ReadChunk(b, off, n)
      case None => None
      case Some((ws, next)) =>
        match ReadChunks(b, next, chunkRows, start + n, rows)
        case None => None
        case Some(rest) => Some(ws + rest)
  }

  function Decoded(k: Kind, b: seq<Byte>, rows: nat): (vals: Option<seq<int>>) {
    if rows == 0 then (if |b| != 0 then None else Some([]))
    else if |b| < 4 then None
    else
      var chunkRows, chunks := FromLE(b[0..2]), FromLE(b[2..4]);
      if chunkRows == 0 || chunks != (rows + chunkRows - 1) / chunkRows then None
      else
        match ReadChunks(b, 4, chunkRows, 0, rows)
        case None => None
        case Some(ws) => Rebuilt(k, ws, 0)
  }

  method DecodeChunk(b: seq<Byte>, off: nat, n: nat) returns (r: Option<(seq<U64>, nat)>)
    ensures r == ReadChunk(b, off, n)
  {
    hide FromLE, PackedSize, Unpacked;
    if off + 9 > |b| {
      return None;
    }
    var base, width := ToI64Of(b, off), b[off + 8];
    if width > 64 {
      return None;
    }
    if width == 0 {
      return Some((seq<U64>(n, _ => ToU64(base)), off + 9));
    }
    var size := PackedSize(n, width);
    if off + 9 + size > |b| {
      return None;
    }
    UnpackedAreU64s(width, b[off + 9..off + 9 + size], n);
    var residuals := Unpack(width, b[off + 9..off + 9 + size], n);
    var ws: seq<U64> := [];
    for i := 0 to n
      invariant |ws| == i && forall j :: 0 <= j < i ==> ws[j] == ToU64(Restored(residuals[j], base))
    {
      ws := ws + [ToU64(Restored(residuals[i], base))];
    }
    assert ws == Lifted(AsU64s(width, b[off + 9..off + 9 + size], n), base);
    r := Some((ws, off + 9 + size));
  }

  method Decode(k: Kind, b: seq<Byte>, rows: nat) returns (vals: Option<seq<int>>)
    ensures vals == Decoded(k, b, rows)
  {
    hide Rebuilt, ReadChunk, FromLE;
    if rows == 0 {
      return if |b| != 0 then None else Some([]);
    }
    if |b| < 4 {
      return None;
    }
    var chunkRows, chunks := FromLE(b[0..2]), FromLE(b[2..4]);
    if chunkRows == 0 {
      return None;
    }
    var wantChunks := (rows + chunkRows - 1) / chunkRows;
    if chunks != wantChunks {
      return None;
    }
    var words: seq<U64>, off := [], 4;
    ghost var all := ReadChunks(b, 4, chunkRows, 0, rows);
    PrefixedNothing(all);
    while |words| < rows
      invariant |words| <= rows && off >= 4
      invariant all == Prefixed(words, ReadChunks(b, off, chunkRows, |words|, rows))
      decreases rows - |words|
    {
      var n := Least(chunkRows, rows - |words|);
      var c := DecodeChunk(b, off, n);
      if c.None? {
        return None;
      }
      var (ws, next) := c.value;
      PrefixedMore(words, ws, ReadChunks(b, next, chunkRows, |words| + n, rows));
      words := words + ws;
      off := next;
    }
    if off != |b| {
      return None;
    }
    assert words + [] == words;
    vals := WriteForValues(k, words, 0);
  }

  function Prefixed(a: seq<U64>, r: Option<seq<U64>>): Option<seq<U64>> {
    match r
    case None => None
    case Some(rest) => Some(a + rest)
  }

  lemma PrefixedNothing(r: Option<seq<U64>>)
    ensures Prefixed([], r) == r
  {
    if r.Some? { assert [] + r.value == r.value; }
  }

  lemma PrefixedMore(a: seq<U64>, ws: seq<U64>, r: Option<seq<U64>>)
    ensures Prefixed(a + ws, r) == Prefixed(a, Prefixed(ws, r))
  {
    if r.Some? { assert a + (ws + r.value) == a + ws + r.value; }
  }

  // ----- the round trip -----

  lemma ChunkReads(k: Kind, head: seq<Byte>, s: seq<int>, p: Params, tail: seq<Byte>)
    requires s != [] && Page(k, s) && Int64s(s) && ChunkParamsOf(k, s, p) && IsInt64(p.base) && p.width <= 64
    ensures ReadChunk(head + ChunkPayload(s, p) + tail, |head|, |s|) == Some((Words(s), |head| + |ChunkPayload(s, p)|))
  {
    hide ChunkParamsOf, LE, FromLE, Packed, Unpacked, PackedSize, Pow2, ForResiduals, Restored;
    ChunkFits(k, s, p);
    var rs := ForResiduals(s, p.base);
    var packed := if p.width > 0 then Packed(p.width, rs) else [];
    var stored := LE(ToU64(p.base), 8);
    var b := head + ChunkPayload(s, p) + tail;
    assert b == head + stored + ([p.width] + packed + tail);
    StoredInt64(head, p.base, [p.width] + packed + tail);
    assert b[|head| + 8] == p.width;
    if p.width == 0 {
      assert seq<U64>(|s|, _ => ToU64(p.base)) == Words(s);
    } else {
      PackedRoundTrip(p.width, rs);
      assert b[|head| + 9..|head| + 9 + |packed|] == packed;
      assert AsU64s(p.width, packed, |s|) == rs;
      forall i | 0 <= i < |s| ensures Restored(rs[i], p.base) == s[i] { RestoreValue(s[i], p.base); }
      assert Lifted(rs, p.base) == Words(s);
    }
  }

  lemma {:induction false} ChunksRead(k: Kind, vals: seq<int>, ps: seq<Params>, b: seq<Byte>, c: nat)
    requires Page(k, vals) && Int64s(vals) && ParamsOfAll(k, vals, ps) && c <= |ps|
    requires b == Payload(vals, ps)
    ensures var start := Least(CHUNK * c, |vals|);
      ReadChunks(b, 4 + |Body(vals, ps, c)|, CHUNK, start, |vals|) == Some(Words(vals[start..]))
    decreases |ps| - c
  {
    hide ChunkParamsOf, LE, Body, ChunkPayload, ReadChunk;
    var start := Least(CHUNK * c, |vals|);
    if c == |ps| {
      assert start == |vals| && vals[start..] == [];
      assert Words([]) == [];
    } else {
      ChunksRead(k, vals, ps, b, c + 1);
      var s := Chunk(vals, c);
      var head, chunk, tail := Split(vals, ps, c);
      assert b == head + chunk + tail;
      assert Page(k, s);
      ChunkReads(k, head, s, ps[c], tail);
      WordsSplit(vals, start, start + |s|);
    }
  }

  lemma WordsSplit(vals: seq<int>, i: nat, j: nat)
    requires Int64s(vals) && i <= j <= |vals|
    ensures Words(vals[i..]) == Words(vals[i..j]) + Words(vals[j..])
  {
  }

  // The payload around chunk c.
  lemma Split(vals: seq<int>, ps: seq<Params>, c: nat) returns (head: seq<Byte>, chunk: seq<Byte>, tail: seq<Byte>)
    requires Int64s(vals) && c < |ps| == Chunks(|vals|)
    requires forall i :: 0 <= i < |ps| ==> IsInt64(ps[i].base) && ps[i].width <= 64
    ensures Payload(vals, ps) == head + chunk + tail
    ensures |head| == 4 + |Body(vals, ps, c)| && |head| + |chunk| == 4 + |Body(vals, ps, c + 1)|
    ensures Int64s(Chunk(vals, c)) && chunk == ChunkPayload(Chunk(vals, c), ps[c])
  {
    hide LE, Body, ChunkPayload;
    BodyStep(vals, ps, c);
    BodyPrefix(vals, ps, c + 1, |ps|);
    head := LE(CHUNK, 2) + LE(Chunks(|vals|) % U16_LIMIT, 2) + Body(vals, ps, c);
    chunk := ChunkPayload(Chunk(vals, c), ps[c]);
    tail := Body(vals, ps, |ps|)[|Body(vals, ps, c + 1)|..];
    assert Body(vals, ps, |ps|) == Body(vals, ps, c) + chunk + tail;
  }

  lemma {:induction false} BodyPrefix(vals: seq<int>, ps: seq<Params>, m: nat, n: nat)
    requires Int64s(vals) && m <= n <= |ps| == Chunks(|vals|)
    requires forall c :: 0 <= c < |ps| ==> IsInt64(ps[c].base) && ps[c].width <= 64
    ensures Body(vals, ps, m) <= Body(vals, ps, n)
  {
    hide ChunkPayload;
    if m < n { BodyPrefix(vals, ps, m, n - 1); }
  }

  // The chunked round trip holds exactly when the chunk count fits its 16 bits.
  lemma RoundTripIff(k: Kind, vals: seq<int>, b: seq<Byte>)
    requires Page(k, vals) && IsChunkedPage(k, vals, b)
    ensures Decoded(k, b, |vals|) == Some(vals) <==> Chunks(|vals|) < U16_LIMIT
    ensures |b| > 0
  {
    hide ChunkParamsOf, LE, FromLE, Body, ReadChunk, Rebuilt;
    var ps :| |vals| >= 2 * CHUNK && Int64s(vals) && ParamsOfAll(k, vals, ps) && b == Payload(vals, ps);
    NoBody(vals, ps);
    ChunksRead(k, vals, ps, b, 0);
    Widths();
    FromLEOfLE(CHUNK, 2);
    FromLEOfLE(Chunks(|vals|) % U16_LIMIT, 2);
    assert b[0..2] == LE(CHUNK, 2) && b[2..4] == LE(Chunks(|vals|) % U16_LIMIT, 2);
    assert vals[0..] == vals;
    WordsRebuild(k, vals);
  }

  // A page of at most a batch has two chunks at most, so it always comes back.
  lemma BatchRoundTrip(k: Kind, vals: seq<int>, b: seq<Byte>)
    requires Page(k, vals) && IsChunkedPage(k, vals, b) && |vals| <= STANDARD_BATCH_ROWS
    ensures Chunks(|vals|) <= 2 && Decoded(k, b, |vals|) == Some(vals)
  {
    hide IsChunkedPage, Decoded;
    RoundTripIff(k, vals, b);
    Widths();
  }

  lemma WordsRebuild(k: Kind, vals: seq<int>)
    requires Page(k, vals) && Int64s(vals)
    ensures Rebuilt(k, Words(vals), 0) == Some(vals)
  {
    hide Restored;
    forall i | 0 <= i < |vals| ensures Restored(Words(vals)[i], 0) == vals[i] { RestoreValue(vals[i], 0); }
    RebuiltIs(k, Words(vals), 0, vals);
  }
}
