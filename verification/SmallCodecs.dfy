// The integer codecs without packing: plain, constant and sequence.
module SmallCodecs {
  import opened Options
  import opened Bytes
  import opened IntPages
  import opened IntCodecs

  // ----- one value in the width of its kind -----

  function Modulus(k: Kind): (m: nat)
    ensures m > 0
  {
    match k
    case Int16 => 0x1_0000
    case Int32 => 0x1_0000_0000
    case Enum32 => 0x1_0000_0000
    case Int64 => U64_LIMIT
  }

  function Stored(k: Kind, v: int): (b: seq<Byte>)
    ensures |b| == Width(k)
  {
    LE(v % Modulus(k), Width(k))
  }

  function Loaded(k: Kind, b: seq<Byte>): int {
    var u := FromLE(b);
    if k != Enum32 && u >= Modulus(k) / 2 then u - Modulus(k) else u
  }

  // The values of a kind are those its width in bytes can hold.
  lemma LoadedOfStored(k: Kind, v: int)
    ensures Loaded(k, Stored(k, v)) == v <==> InKind(k, v)
  {
    hide LE, FromLE;
    Widths();
    FromLEOfLE(v % Modulus(k), Width(k));
  }

  // ----- plain -----

  function PlainPayload(k: Kind, vals: seq<int>): (b: seq<Byte>)
    ensures |b| == |vals| * Width(k)
  {
    if vals == [] then [] else PlainPayload(k, vals[..|vals| - 1]) + Stored(k, vals[|vals| - 1])
  }

  function PlainDecoded(k: Kind, b: seq<Byte>, rows: nat): (vals: Option<seq<int>>) {
    if |b| != rows * Width(k) then None
    else Some(seq(rows, i requires 0 <= i < rows => Loaded(k, Cell(k, b, i, rows))))
  }

  function Cell(k: Kind, b: seq<Byte>, i: nat, rows: nat): (c: seq<Byte>)
    requires i < rows && |b| == rows * Width(k)
    ensures |c| == Width(k)
  {
    b[i * Width(k)..i * Width(k) + Width(k)]
  }

  lemma CellInFront(i: nat, n: nat, w: nat)
    requires i < n
    ensures i * w + w <= n * w
  {
    assert (n - i - 1) * w >= 0;
    assert n * w == i * w + w + (n - i - 1) * w;
  }

  lemma SliceOfFront(a: seq<Byte>, b: seq<Byte>, from: nat, to: nat)
    requires from <= to <= |a|
    ensures (a + b)[from..to] == a[from..to]
  {
  }

  lemma SliceOfBack(a: seq<Byte>, b: seq<Byte>)
    ensures (a + b)[|a|..|a| + |b|] == b
  {
  }

  lemma {:induction false} PlainCell(k: Kind, vals: seq<int>, i: nat)
    requires i < |vals|
    ensures Cell(k, PlainPayload(k, vals), i, |vals|) == Stored(k, vals[i])
  {
    hide Stored, Width;
    var n := |vals| - 1;
    var front, last := PlainPayload(k, vals[..n]), Stored(k, vals[n]);
    if i < n {
      PlainCell(k, vals[..n], i);
      CellInFront(i, n, Width(k));
      SliceOfFront(front, last, i * Width(k), i * Width(k) + Width(k));
    } else {
      SliceOfBack(front, last);
    }
  }

  lemma PlainRoundTrip(k: Kind, vals: seq<int>)
    requires Page(k, vals)
    ensures PlainDecoded(k, PlainPayload(k, vals), |vals|) == Some(vals)
  {
    hide Loaded, Stored, Cell, PlainPayload;
    var b := PlainPayload(k, vals);
    forall i | 0 <= i < |vals| ensures Loaded(k, Cell(k, b, i, |vals|)) == vals[i] {
      PlainCell(k, vals, i);
      LoadedOfStored(k, vals[i]);
    }
    assert seq(|vals|, i requires 0 <= i < |vals| => Loaded(k, Cell(k, b, i, |vals|))) == vals;
  }

  // ----- constant -----

  method ConstantEncode(k: Kind, vals: seq<int>, facts: Option<Facts>, maxLen: nat) returns (r: Option<seq<Byte>>)
    requires Page(k, vals) && (facts.Some? ==> vals != [] && FactsOf(vals, facts.value))
    ensures r.Some? ==> IsConstantPage(k, vals, r.value) && (maxLen == 0 || |r.value| <= maxLen)
    ensures r.None? <==> vals != [] && (!AllEqual(vals) || 0 < maxLen < Width(k))
    ensures r.None? ==> forall b :: IsConstantPage(k, vals, b) ==> 0 < maxLen < |b|
  {
    if |vals| == 0 {
      return Some([]);
    }
    var ok;
    if facts.Some? {
      ok := facts.value.constantOK;
    } else {
      ok := ConstantAllEqual(vals);
    }
    if !ok || TooLong(Width(k), maxLen) {
      return None;
    }
    r := Some(Stored(k, vals[0]));
  }

  ghost predicate IsConstantPage(k: Kind, vals: seq<int>, b: seq<Byte>) {
    if vals == [] then b == [] else AllEqual(vals) && b == Stored(k, vals[0])
  }

  function ConstantDecoded(k: Kind, b: seq<Byte>, rows: nat): (vals: Option<seq<int>>) {
    if |b| != (if rows > 0 then Width(k) else 0) then None
    else Some(seq(rows, _ => Loaded(k, b)))
  }

  lemma ConstantRoundTrip(k: Kind, vals: seq<int>, b: seq<Byte>)
    requires Page(k, vals) && IsConstantPage(k, vals, b)
    ensures ConstantDecoded(k, b, |vals|) == Some(vals)
  {
    hide Loaded, Stored;
    if vals != [] {
      LoadedOfStored(k, vals[0]);
      assert seq(|vals|, _ => Loaded(k, b)) == vals;
    }
  }

  // ----- sequence, for 8-byte kinds -----

  method SequenceEncode(k: Kind, vals: seq<int>, facts: Option<Facts>, maxLen: nat) returns (r: Option<seq<Byte>>)
    requires Page(k, vals) && (facts.Some? ==> vals != [] && FactsOf(vals, facts.value))
    ensures r.Some? ==> IsSequencePage(k, vals, r.value) && (maxLen == 0 || |r.value| <= maxLen)
    ensures r.None? <==> k != Int64 || !IsSequence(vals) || 0 < maxLen < 16
    ensures r.None? ==> forall b :: IsSequencePage(k, vals, b) ==> 0 < maxLen < |b|
  {
    hide LE;
    if k != Int64 || |vals| < 2 {
      return None;
    }
    var ok;
    if facts.Some? {
      ok := facts.value.sequenceOK;
    } else {
      ok := SequenceFits(vals);
    }
    if !ok || TooLong(16, maxLen) {
      return None;
    }
    r := Some(LE(ToU64(vals[0]), 8) + LE(ToU64(Wrap64(vals[1] - vals[0])), 8));
  }

  ghost predicate IsSequencePage(k: Kind, vals: seq<int>, b: seq<Byte>) {
    && k == Int64 && IsSequence(vals) && Page(k, vals)
    && b == LE(ToU64(vals[0]), 8) + LE(ToU64(Step(vals, 1)), 8)
  }

  function SequenceDecoded(k: Kind, b: seq<Byte>, rows: nat): (vals: Option<seq<int>>) {
    if k != Int64 || rows == 1 || |b| != (if rows > 0 then 16 else 0) then None
    else if rows == 0 then Some([])
    else
      var start, step := ToI64Of(b, 0), ToI64Of(b, 8);
      Some(seq(rows, i requires 0 <= i < rows => Wrap64(start + Wrap64(step * i))))
  }

  // Adding the wrapped step i times stays congruent to start + step * i.
  lemma {:induction false} SequenceTerm(vals: seq<int>, i: nat)
    requires Int64s(vals) && IsSequence(vals) && i < |vals|
    ensures vals[i] % U64_LIMIT == (vals[0] + Step(vals, 1) * i) % U64_LIMIT
  {
    if i > 0 {
      SequenceTerm(vals, i - 1);
      assert Steps(vals)[i - 1] == Steps(vals)[0];
      assert Step(vals, i) == Step(vals, 1);
      WrapKeepsRemainder(vals[i] - vals[i - 1]);
      var s := Step(vals, 1);
      OneMoreStep(vals[i], vals[i - 1], vals[0] + s * (i - 1), s);
      assert vals[0] + s * (i - 1) + s == vals[0] + s * i;
    }
  }

  lemma OneMoreStep(v: int, prev: int, sofar: int, s: int)
    requires s % U64_LIMIT == (v - prev) % U64_LIMIT && prev % U64_LIMIT == sofar % U64_LIMIT
    ensures v % U64_LIMIT == (sofar + s) % U64_LIMIT
  {
  }

  lemma TermRestored(vals: seq<int>, i: nat)
    requires Int64s(vals) && IsSequence(vals) && i < |vals|
    ensures Wrap64(vals[0] + Wrap64(Step(vals, 1) * i)) == vals[i]
  {
    hide Step;
    SequenceTerm(vals, i);
    var m := Step(vals, 1) * i;
    WrapKeepsRemainder(m);
    SameSum(vals[0], Wrap64(m), m);
    WrapAgrees(vals[0] + Wrap64(m), vals[i]);
  }

  lemma SameSum(a: int, x: int, y: int)
    requires x % U64_LIMIT == y % U64_LIMIT
    ensures (a + x) % U64_LIMIT == (a + y) % U64_LIMIT
  {
  }

  // The sequence round trip, wrap-around included.
  lemma SequenceRoundTrip(k: Kind, vals: seq<int>, b: seq<Byte>)
    requires IsSequencePage(k, vals, b)
    ensures SequenceDecoded(k, b, |vals|) == Some(vals)
    ensures |b| == 16
  {
    hide LE, FromLE, Wrap64, Step;
    PageIsInt64s(k, vals);
    var s, d := LE(ToU64(vals[0]), 8), LE(ToU64(Step(vals, 1)), 8);
    assert b == [] + s + d && b == s + d + [];
    StoredInt64([], vals[0], d);
    StoredInt64(s, Step(vals, 1), []);
    forall i | 0 <= i < |vals| ensures Wrap64(vals[0] + Wrap64(Step(vals, 1) * i)) == vals[i] { TermRestored(vals, i); }
    assert seq(|vals|, i requires 0 <= i < |vals| => Wrap64(vals[0] + Wrap64(Step(vals, 1) * i))) == vals;
  }
}
