// What the decoders of the codecs without packing accept: nothing but the bytes
// an encoder writes for the values they return.
module DecodeExact {
  import opened Options
  import opened Bytes
  import opened IntPages
  import S = SmallCodecs
  import T = TextCodecs
  import IntCodecs
  import Fsst

  // ----- integers -----

  lemma LoadedIsStored(k: Kind, c: seq<Byte>)
    requires |c| == Width(k)
    ensures InKind(k, S.Loaded(k, c)) && S.Stored(k, S.Loaded(k, c)) == c
  {
    hide LE, FromLE;
    Widths();
    LEOfFromLE(c);
    assert FromLE(c) < S.Modulus(k);
  }

  lemma LastCell(k: Kind, b: seq<Byte>, n: nat)
    requires |b| == (n + 1) * Width(k)
    ensures n * Width(k) <= |b| && b == b[..n * Width(k)] + S.Cell(k, b, n, n + 1)
  {
    hide Width;
    assert (n + 1) * Width(k) == n * Width(k) + Width(k);
  }

  lemma FrontCell(k: Kind, b: seq<Byte>, i: nat, n: nat)
    requires i < n && |b| == (n + 1) * Width(k) && n * Width(k) <= |b|
    ensures S.Cell(k, b[..n * Width(k)], i, n) == S.Cell(k, b, i, n + 1)
  {
    hide Width;
    S.CellInFront(i, n, Width(k));
    S.CellInFront(i, n + 1, Width(k));
  }

  lemma {:induction false} PlainBytes(k: Kind, b: seq<Byte>, vals: seq<int>)
    requires |b| == |vals| * Width(k)
    requires forall i :: 0 <= i < |vals| ==> S.Cell(k, b, i, |vals|) == S.Stored(k, vals[i])
    ensures b == S.PlainPayload(k, vals)
    decreases |vals|
  {
    hide S.Stored, S.Cell, Width;
    if vals != [] {
      var n := |vals| - 1;
      LastCell(k, b, n);
      forall i | 0 <= i < n ensures S.Cell(k, b[..n * Width(k)], i, n) == S.Stored(k, vals[..n][i]) {
        FrontCell(k, b, i, n);
        assert S.Cell(k, b, i, |vals|) == S.Stored(k, vals[i]);
      }
      PlainBytes(k, b[..n * Width(k)], vals[..n]);
    }
  }

  lemma PlainExact(k: Kind, b: seq<Byte>, vals: seq<int>)
    ensures S.PlainDecoded(k, b, |vals|) == Some(vals) <==> Page(k, vals) && b == S.PlainPayload(k, vals)
  {
    hide S.Loaded, S.Stored, S.Cell, S.PlainPayload, InKind;
    if Page(k, vals) && b == S.PlainPayload(k, vals) {
      S.PlainRoundTrip(k, vals);
    }
    if S.PlainDecoded(k, b, |vals|) == Some(vals) {
      forall i | 0 <= i < |vals| ensures InKind(k, vals[i]) && S.Cell(k, b, i, |vals|) == S.Stored(k, vals[i]) {
        assert vals[i] == S.Loaded(k, S.Cell(k, b, i, |vals|));
        LoadedIsStored(k, S.Cell(k, b, i, |vals|));
      }
      PlainBytes(k, b, vals);
    }
  }

  lemma ConstantExact(k: Kind, b: seq<Byte>, vals: seq<int>)
    ensures S.ConstantDecoded(k, b, |vals|) == Some(vals) <==> Page(k, vals) && S.IsConstantPage(k, vals, b)
  {
    hide S.Loaded, S.Stored, InKind;
    if Page(k, vals) && S.IsConstantPage(k, vals, b) {
      S.ConstantRoundTrip(k, vals, b);
    }
    if S.ConstantDecoded(k, b, |vals|) == Some(vals) && vals != [] {
      LoadedIsStored(k, b);
      assert forall i :: 0 <= i < |vals| ==> vals[i] == S.Loaded(k, b);
    }
  }

  lemma StepIs(start: int, step: int, i: nat)
    requires IsInt64(start) && IsInt64(step)
    ensures Wrap64(Wrap64(start + Wrap64(step * (i + 1))) - Wrap64(start + Wrap64(step * i))) == step
  {
    hide Wrap64;
    var x, y := Wrap64(start + Wrap64(step * (i + 1))), Wrap64(start + Wrap64(step * i));
    TermRemainder(start, step * (i + 1));
    TermRemainder(start, step * i);
    assert step * (i + 1) == step * i + step;
    Difference(x, y, start + step * i, step);
    WrapAgrees(x - y, step);
  }

  lemma TermRemainder(start: int, m: int)
    ensures Wrap64(start + Wrap64(m)) % U64_LIMIT == (start + m) % U64_LIMIT
  {
    hide Wrap64;
    WrapKeepsRemainder(m);
    S.SameSum(start, Wrap64(m), m);
    WrapKeepsRemainder(start + Wrap64(m));
  }

  lemma Difference(x: int, y: int, a: int, s: int)
    requires x % U64_LIMIT == (a + s) % U64_LIMIT && y % U64_LIMIT == a % U64_LIMIT
    ensures (x - y) % U64_LIMIT == s % U64_LIMIT
  {
    var q := x / U64_LIMIT - (a + s) / U64_LIMIT - y / U64_LIMIT + a / U64_LIMIT;
    assert x - y == s + U64_LIMIT * q;
    Multiple(s, q);
  }

  lemma Multiple(s: int, q: int)
    ensures (s + U64_LIMIT * q) % U64_LIMIT == s % U64_LIMIT
  {
  }

  lemma ReadInt64(b: seq<Byte>, pos: nat)
    requires pos + 8 <= |b|
    ensures LE(ToU64(IntCodecs.ToI64Of(b, pos)), 8) == b[pos..pos + 8]
  {
    hide LE, FromLE;
    Widths();
    LEOfFromLE(b[pos..pos + 8]);
  }

  lemma SequenceOfTerms(vals: seq<int>, start: int, step: int)
    requires |vals| >= 2 && IsInt64(start) && IsInt64(step)
    requires forall i :: 0 <= i < |vals| ==> vals[i] == Wrap64(start + Wrap64(step * i))
    ensures IsSequence(vals) && Page(Int64, vals) && vals[0] == start && Step(vals, 1) == step
  {
    hide Wrap64;
    assert step * 0 == 0;
    assert Wrap64(0) == 0 && Wrap64(start) == start by { WrapInRange(0); WrapInRange(start); }
    forall i | 0 < i < |vals| ensures Step(vals, i) == step { StepIs(start, step, i - 1); }
    forall i | 0 <= i < |vals| ensures IsInt64(vals[i]) { WrapInRange(start + Wrap64(step * i)); }
    assert forall i :: 0 <= i < |Steps(vals)| ==> Steps(vals)[i] == step;
  }

  lemma WrapInRange(v: int)
    ensures IsInt64(Wrap64(v)) && (IsInt64(v) ==> Wrap64(v) == v)
  {
  }

  lemma SequenceExact(k: Kind, b: seq<Byte>, vals: seq<int>)
    ensures S.SequenceDecoded(k, b, |vals|) == Some(vals) <==> (k == Int64 && vals == [] && b == []) || S.IsSequencePage(k, vals, b)
  {
    hide LE, FromLE, Wrap64, Step;
    if S.IsSequencePage(k, vals, b) {
      S.SequenceRoundTrip(k, vals, b);
    }
    if S.SequenceDecoded(k, b, |vals|) == Some(vals) && vals != [] {
      var start, step := IntCodecs.ToI64Of(b, 0), IntCodecs.ToI64Of(b, 8);
      SequenceOfTerms(vals, start, step);
      ReadInt64(b, 0);
      ReadInt64(b, 8);
      assert b == b[0..8] + b[8..16];
    }
  }

  // ----- text -----

  predicate Short(vs: seq<T.Text>) {
    forall i :: 0 <= i < |vs| ==> |vs[i]| < U32_LIMIT
  }

  lemma {:induction false} ValuesBack(b: seq<Byte>, pos: nat, n: nat)
    requires pos <= |b| && T.ReadValues(b, pos, n).Some?
    ensures var (vs, end) := T.ReadValues(b, pos, n).value; Short(vs) && b[pos..end] == Fsst.RowBytes(vs)
    decreases n
  {
    hide LE, FromLE, T.ReadValues, Fsst.RowBytes;
    if n == 0 {
      NoValues(b, pos);
    } else {
      var next := FirstValue(b, pos, n);
      ValuesBack(b, next, n - 1);
      var (rest, end) := T.ReadValues(b, next, n - 1).value;
      assert b[pos..end] == b[pos..next] + b[next..end];
      OneMore(b[pos + 4..next], rest);
    }
  }

  lemma NoValues(b: seq<Byte>, pos: nat)
    requires pos <= |b|
    ensures T.ReadValues(b, pos, 0) == Some(([], pos)) && Short([]) && b[pos..pos] == Fsst.RowBytes([])
  {
  }

  lemma FirstValue(b: seq<Byte>, pos: nat, n: nat) returns (next: nat)
    requires pos <= |b| && n > 0 && T.ReadValues(b, pos, n).Some?
    ensures pos + 4 <= next <= |b| && next - (pos + 4) < U32_LIMIT && T.ReadValues(b, next, n - 1).Some?
    ensures T.ReadValues(b, pos, n).value.0 == [b[pos + 4..next]] + T.ReadValues(b, next, n - 1).value.0
    ensures T.ReadValues(b, pos, n).value.1 == T.ReadValues(b, next, n - 1).value.1
    ensures b[pos..next] == LE(next - (pos + 4), 4) + b[pos + 4..next]
  {
    hide LE, FromLE;
    Widths();
    LEOfFromLE(b[pos..pos + 4]);
    next := pos + 4 + FromLE(b[pos..pos + 4]);
    assert b[pos..next] == b[pos..pos + 4] + b[pos + 4..next];
  }

  lemma OneMore(v: T.Text, rest: seq<T.Text>)
    ensures Fsst.RowBytes([v] + rest) == LE(|v|, 4) + v + Fsst.RowBytes(rest)
    ensures |v| < U32_LIMIT && Short(rest) ==> Short([v] + rest)
  {
    hide LE;
    assert ([v] + rest)[1..] == rest;
  }

  lemma TextPlainExact(b: seq<Byte>, rows: seq<T.Text>)
    ensures T.PlainDecoded(b, |rows|) == Some(rows) <==> Short(rows) && b == Fsst.RowBytes(rows)
  {
    hide T.ReadValues, Fsst.RowBytes;
    if Short(rows) && b == Fsst.RowBytes(rows) {
      T.ReadValuesOf([], rows, []);
      assert [] + Fsst.RowBytes(rows) + [] == b;
    }
    if T.PlainDecoded(b, |rows|) == Some(rows) {
      ValuesBack(b, 0, |rows|);
      assert b[0..|b|] == b;
    }
  }

  lemma TextConstantExact(b: seq<Byte>, rows: seq<T.Text>)
    ensures T.ConstantDecoded(b, |rows|) == Some(rows) <==> Short(rows) && T.AllEqual(rows) && b == T.ConstantPayload(rows)
  {
    hide LE, FromLE;
    Widths();
    if rows != [] {
      if Short(rows) && T.AllEqual(rows) && b == T.ConstantPayload(rows) {
        FromLEOfLE(|rows[0]|, 4);
        assert b[..4] == LE(|rows[0]|, 4) && b[4..] == rows[0];
        assert seq(|rows|, _ => b[4..]) == rows;
      }
      if T.ConstantDecoded(b, |rows|) == Some(rows) {
        LEOfFromLE(b[..4]);
        assert forall i :: 0 <= i < |rows| ==> rows[i] == b[4..];
        assert b == b[..4] + b[4..];
      }
    }
  }

  // At most 256 entries, then one code a row.
  ghost predicate IsCoded(b: seq<Byte>, es: seq<T.Text>, codes: seq<Byte>, rows: seq<T.Text>) {
    && 1 <= |es| <= 256 && Short(es) && |codes| == |rows|
    && b == LE(|es|, 2) + Fsst.RowBytes(es) + codes
    && forall i :: 0 <= i < |rows| ==> codes[i] < |es| && rows[i] == es[codes[i]]
  }

  lemma DictExact(b: seq<Byte>, rows: seq<T.Text>)
    ensures T.DictDecoded(b, |rows|) == Some(rows) <==> if rows == [] then b == [] else exists es, codes :: IsCoded(b, es, codes, rows)
  {
    hide LE, FromLE, T.ReadValues, Fsst.RowBytes;
    if rows != [] {
      forall es, codes | IsCoded(b, es, codes, rows) ensures T.DictDecoded(b, |rows|) == Some(rows) { CodedDecodes(b, es, codes, rows); }
      if T.DictDecoded(b, |rows|) == Some(rows) {
        var (es, codes) := T.ParseDict(b, |rows|).value;
        LEOfFromLE(b[..2]);
        ValuesBack(b, 2, |es|);
        var pos := T.ReadValues(b, 2, |es|).value.1;
        assert b == b[..2] + b[2..pos] + b[pos..pos + |rows|];
        forall i | 0 <= i < |rows| ensures codes[i] < |es| && rows[i] == es[codes[i]] {
        }
        assert IsCoded(b, es, codes, rows);
      }
    }
  }

  lemma CodedDecodes(b: seq<Byte>, es: seq<T.Text>, codes: seq<Byte>, rows: seq<T.Text>)
    requires rows != [] && IsCoded(b, es, codes, rows)
    ensures T.DictDecoded(b, |rows|) == Some(rows)
  {
    hide LE, FromLE, T.ReadValues, Fsst.RowBytes;
    Widths();
    FromLEOfLE(|es|, 2);
    assert b[..2] == LE(|es|, 2);
    T.ReadValuesOf(LE(|es|, 2), es, codes);
    var pos := 2 + |Fsst.RowBytes(es)|;
    assert b[pos..pos + |rows|] == codes;
    assert T.ParseDict(b, |rows|) == Some((es, codes));
    assert seq(|rows|, i requires 0 <= i < |rows| => if codes[i] < |es| then es[codes[i]] else []) == rows;
  }
}
