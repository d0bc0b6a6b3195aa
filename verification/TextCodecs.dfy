// The text codecs without training: plain, constant and dictionary.
module TextCodecs {
  import opened Options
  import opened Bytes
  import Fsst

  type Text = seq<Byte>

  const DICT_MAX: nat := 256

  // Every length fits its 32-bit field.
  predicate Storable(rows: seq<Text>) {
    |rows| < U32_LIMIT && forall i :: 0 <= i < |rows| ==> |rows[i]| < U32_LIMIT
  }

  // ----- length-prefixed bytes -----

  // The n values stored from pos on, and where they end.
  function ReadValues(b: seq<Byte>, pos: nat, n: nat): (r: Option<(seq<Text>, nat)>)
    ensures r.Some? ==> |r.value.0| == n && pos <= r.value.1 && (pos <= |b| ==> r.value.1 <= |b|)
    decreases n
  {
    if n == 0 then Some(([], pos))
    else if pos + 4 > |b| || pos + 4 + FromLE(b[pos..pos + 4]) > |b| then None
    else
      var next := pos + 4 + FromLE(b[pos..pos + 4]);
      match ReadValues(b, next, n - 1)
      case None => None
      case Some((rest, end)) => Some(([b[pos + 4..next]] + rest, end))
  }

  lemma {:induction false} ValuesAt(b: seq<Byte>, pos: nat, vs: seq<Text>)
    requires forall i :: 0 <= i < |vs| ==> |vs[i]| < U32_LIMIT
    requires pos + |Fsst.RowBytes(vs)| <= |b| && b[pos..pos + |Fsst.RowBytes(vs)|] == Fsst.RowBytes(vs)
    ensures ReadValues(b, pos, |vs|) == Some((vs, pos + |Fsst.RowBytes(vs)|))
    decreases |vs|
  {
    hide LE, FromLE;
    if vs != [] {
      var v, more := vs[0], vs[1..];
      Widths();
      FromLEOfLE(|v|, 4);
      Fsst.Parts(b, pos, LE(|v|, 4), v, Fsst.RowBytes(more));
      ValuesAt(b, pos + 4 + |v|, more);
      assert [v] + more == vs;
    }
  }

  lemma ReadValuesOf(head: seq<Byte>, vs: seq<Text>, tail: seq<Byte>)
    requires forall i :: 0 <= i < |vs| ==> |vs[i]| < U32_LIMIT
    ensures ReadValues(head + Fsst.RowBytes(vs) + tail, |head|, |vs|) == Some((vs, |head| + |Fsst.RowBytes(vs)|))
  {
    hide ReadValues, Fsst.RowBytes;
    Fsst.Middle(head, Fsst.RowBytes(vs), tail);
    ValuesAt(head + Fsst.RowBytes(vs) + tail, |head|, vs);
  }

  // ----- plain -----

  function PlainDecoded(b: seq<Byte>, rows: nat): Option<seq<Text>> {
    match ReadValues(b, 0, rows)
    case None => None
    case Some((vs, end)) => if end != |b| then None else Some(vs)
  }

  lemma PlainRoundTrip(rows: seq<Text>)
    requires Storable(rows)
    ensures PlainDecoded(Fsst.RowBytes(rows), |rows|) == Some(rows)
  {
    hide ReadValues, Fsst.RowBytes;
    ReadValuesOf([], rows, []);
    assert [] + Fsst.RowBytes(rows) + [] == Fsst.RowBytes(rows);
  }

  function PlainSize(rows: seq<Text>): (n: nat) {
    if rows == [] then 0 else PlainSize(rows[..|rows| - 1]) + 4 + |rows[|rows| - 1]|
  }

  lemma {:induction false} RowBytesAppend(rows: seq<Text>, v: Text)
    ensures Fsst.RowBytes(rows + [v]) == Fsst.RowBytes(rows) + (LE(|v|, 4) + v)
  {
    hide LE;
    if rows == [] {
      assert [v][1..] == [];
      assert Fsst.RowBytes([v]) == LE(|v|, 4) + v + [];
    } else {
      RowBytesAppend(rows[1..], v);
      assert (rows + [v])[1..] == rows[1..] + [v];
    }
  }

  lemma {:induction false} PlainSizeExact(rows: seq<Text>)
    ensures |Fsst.RowBytes(rows)| == PlainSize(rows) >= 4 * |rows|
  {
    hide LE, Fsst.RowBytes;
    if rows != [] {
      var n := |rows| - 1;
      PlainSizeExact(rows[..n]);
      RowBytesAppend(rows[..n], rows[n]);
      assert rows == rows[..n] + [rows[n]];
    } else {
      NoRowBytes();
    }
  }

  lemma NoRowBytes()
    ensures Fsst.RowBytes([]) == []
  {
  }

  // ----- constant -----

  predicate AllEqual(rows: seq<Text>) {
    forall i :: 0 <= i < |rows| ==> rows[i] == rows[0]
  }

  function ConstantPayload(rows: seq<Text>): (b: seq<Byte>) {
    if rows == [] then [] else LE(|rows[0]|, 4) + rows[0]
  }

  function ConstantDecoded(b: seq<Byte>, rows: nat): Option<seq<Text>> {
    if rows == 0 then (if |b| != 0 then None else Some([]))
    else if |b| < 4 || |b| != 4 + FromLE(b[..4]) then None
    else Some(seq(rows, _ => b[4..]))
  }

  lemma ConstantRoundTrip(rows: seq<Text>)
    requires Storable(rows) && AllEqual(rows)
    ensures ConstantDecoded(ConstantPayload(rows), |rows|) == Some(rows)
  {
    hide LE, FromLE;
    if rows != [] {
      Widths();
      FromLEOfLE(|rows[0]|, 4);
      var b := ConstantPayload(rows);
      assert b[..4] == LE(|rows[0]|, 4) && b[4..] == rows[0];
      assert seq(|rows|, _ => b[4..]) == rows;
    }
  }

  method ConstantEncode(rows: seq<Text>, maxLen: nat) returns (r: Option<seq<Byte>>)
    ensures r.Some? ==> AllEqual(rows) && r.value == ConstantPayload(rows) && (maxLen > 0 ==> |r.value| <= maxLen)
    ensures r.None? ==> !AllEqual(rows) || (maxLen > 0 && |ConstantPayload(rows)| > maxLen)
  {
    hide LE;
    if |rows| == 0 {
      return Some([]);
    }
    for i := 1 to |rows|
      invariant forall k :: 0 <= k < i ==> rows[k] == rows[0]
    {
      if rows[i] != rows[0] {
        return None;
      }
    }
    var n := 4 + |rows[0]|;
    if maxLen > 0 && n > maxLen {
      return None;
    }
    r := Some(LE(|rows[0]|, 4) + rows[0]);
  }

  // ----- dictionary -----

  // The distinct values in order of first occurrence.
  function Entries(rows: seq<Text>): (es: seq<Text>) {
    if rows == [] then []
    else
      var n := |rows| - 1;
      var es := Entries(rows[..n]);
      if rows[n] in es then es else es + [rows[n]]
  }

  function IndexOf(es: seq<Text>, v: Text): (i: nat)
    requires v in es
    ensures i < |es| && es[i] == v && forall j :: 0 <= j < i ==> es[j] != v
  {
    if es[0] == v then 0 else 1 + IndexOf(es[1..], v)
  }

  lemma {:induction false} EntriesAre(rows: seq<Text>)
    ensures forall v :: v in Entries(rows) <==> v in rows
    ensures forall i, j :: 0 <= i < j < |Entries(rows)| ==> Entries(rows)[i] != Entries(rows)[j]
    ensures |Entries(rows)| <= |rows| && (rows != [] ==> Entries(rows) != [])
  {
    if rows != [] {
      var n := |rows| - 1;
      EntriesAre(rows[..n]);
      assert rows == rows[..n] + [rows[n]];
    }
  }

  lemma {:induction false} EntriesGrow(rows: seq<Text>, n: nat)
    requires n <= |rows|
    ensures Entries(rows[..n]) <= Entries(rows)
  {
    if n < |rows| {
      EntriesGrow(rows[..|rows| - 1], n);
      assert rows[..|rows| - 1][..n] == rows[..n];
    } else {
      assert rows[..n] == rows;
    }
  }

  lemma EntriesStep(rows: seq<Text>, n: nat)
    requires n < |rows|
    ensures Entries(rows[..n + 1])
      == if rows[n] in Entries(rows[..n]) then Entries(rows[..n]) else Entries(rows[..n]) + [rows[n]]
  {
    assert rows[..n + 1][..n] == rows[..n];
  }

  lemma IndexIsUnique(es: seq<Text>, i: nat)
    requires i < |es| && forall a, b :: 0 <= a < b < |es| ==> es[a] != es[b]
    ensures IndexOf(es, es[i]) == i
  {
  }

  function Indices(rows: seq<Text>): (is_: seq<nat>)
    ensures |is_| == |rows|
    ensures forall i :: 0 <= i < |rows| ==> is_[i] < |Entries(rows)| && Entries(rows)[is_[i]] == rows[i]
  {
    EntriesAre(rows);
    seq<nat>(|rows|, i requires 0 <= i < |rows| => IndexOf(Entries(rows), rows[i]))
  }

  // What both scans build: entries and one index a row, unless there are too many distinct values.
  datatype Dict = Dict(indices: seq<Byte>, entries: seq<Text>, bytes: nat)

  ghost predicate IsDict(rows: seq<Text>, d: Option<Dict>) {
    if |Entries(rows)| > DICT_MAX then d == None
    else d.Some? && d.value.entries == Entries(rows) && d.value.indices == Indices(rows) && d.value.bytes == PlainSize(Entries(rows))
  }

  // Rows n on still to come: every index already found is an index into the entries so far.
  ghost predicate DictSoFar(rows: seq<Text>, n: nat, d: Dict) {
    && n <= |rows| && d.entries == Entries(rows[..n]) && |d.entries| <= DICT_MAX && d.bytes == PlainSize(d.entries)
    && |d.indices| == n
    && (forall i :: 0 <= i < n ==> d.indices[i] < |d.entries| && d.entries[d.indices[i]] == rows[i])
  }

  lemma DictStarts(rows: seq<Text>)
    ensures DictSoFar(rows, 0, Dict([], [], 0))
  {
  }

  lemma DictFound(rows: seq<Text>, n: nat, d: Dict, code: Byte)
    requires DictSoFar(rows, n, d) && n < |rows| && code < |d.entries| && d.entries[code] == rows[n]
    ensures DictSoFar(rows, n + 1, d.(indices := d.indices + [code]))
  {
    hide Entries, PlainSize;
    EntriesStep(rows, n);
  }

  lemma DictAdded(rows: seq<Text>, n: nat, d: Dict)
    requires DictSoFar(rows, n, d) && n < |rows| && rows[n] !in d.entries && |d.entries| < DICT_MAX
    ensures DictSoFar(rows, n + 1, Dict(d.indices + [|d.entries|], d.entries + [rows[n]], d.bytes + 4 + |rows[n]|))
  {
    EntriesStep(rows, n);
    assert (d.entries + [rows[n]])[..|d.entries|] == d.entries;
  }

  lemma DictOverflows(rows: seq<Text>, n: nat, d: Dict)
    requires DictSoFar(rows, n, d) && n < |rows| && rows[n] !in d.entries && |d.entries| >= DICT_MAX
    ensures IsDict(rows, None)
  {
    EntriesStep(rows, n);
    EntriesGrow(rows, n + 1);
  }

  lemma DictDone(rows: seq<Text>, d: Dict)
    requires DictSoFar(rows, |rows|, d)
    ensures IsDict(rows, Some(d))
  {
    assert rows[..|rows|] == rows;
    EntriesAre(rows);
    forall i | 0 <= i < |rows| ensures d.indices[i] == Indices(rows)[i] {
      IndexIsUnique(Entries(rows), d.indices[i]);
      IndexIsUnique(Entries(rows), Indices(rows)[i]);
    }
  }

  // The codec's own scan: a linear search for each row.
  method BuildDict(rows: seq<Text>) returns (d: Option<Dict>)
    ensures IsDict(rows, d)
  {
    hide DictSoFar, IsDict, Entries;
    var dict := Dict([], [], 0);
    DictStarts(rows);
    for n := 0 to |rows|
      invariant DictSoFar(rows, n, dict)
    {
      DictShape(rows, n, dict);
      var found := FindEntry(dict.entries, rows[n]);
      if found.Some? {
        DictFound(rows, n, dict, found.value);
        dict := dict.(indices := dict.indices + [found.value]);
        continue;
      }
      if |dict.entries| >= DICT_MAX {
        DictOverflows(rows, n, dict);
        return None;
      }
      DictAdded(rows, n, dict);
      dict := Dict(dict.indices + [|dict.entries|], dict.entries + [rows[n]], dict.bytes + 4 + |rows[n]|);
    }
    DictDone(rows, dict);
    d := Some(dict);
  }

  lemma DictShape(rows: seq<Text>, n: nat, d: Dict)
    requires DictSoFar(rows, n, d)
    ensures |d.entries| <= DICT_MAX
  {
  }

  method FindEntry(es: seq<Text>, v: Text) returns (found: Option<nat>)
    ensures found.Some? ==> found.value < |es| && es[found.value] == v
    ensures found.None? ==> v !in es
  {
    for j := 0 to |es|
      invariant forall k :: 0 <= k < j ==> es[k] != v
    {
      if es[j] == v {
        return Some(j);
      }
    }
    found := None;
  }

  // The analyzer's scan: the same dictionary through a map.
  method AnalyzeDict(rows: seq<Text>) returns (d: Option<Dict>)
    ensures IsDict(rows, d)
  {
    hide DictSoFar, IsDict, Entries;
    var dict := Dict([], [], 0);
    var codes: map<Text, Byte> := map[];
    DictStarts(rows);
    for n := 0 to |rows|
      invariant DictSoFar(rows, n, dict)
      invariant forall v :: v in codes <==> v in dict.entries
      invariant forall v :: v in codes ==> codes[v] < |dict.entries| && dict.entries[codes[v]] == v
    {
      DictShape(rows, n, dict);
      if rows[n] in codes {
        DictFound(rows, n, dict, codes[rows[n]]);
        dict := dict.(indices := dict.indices + [codes[rows[n]]]);
        continue;
      }
      if |dict.entries| >= DICT_MAX {
        DictOverflows(rows, n, dict);
        return None;
      }
      DictAdded(rows, n, dict);
      codes := codes[rows[n] := |dict.entries|];
      dict := Dict(dict.indices + [|dict.entries|], dict.entries + [rows[n]], dict.bytes + 4 + |rows[n]|);
    }
    DictDone(rows, dict);
    d := Some(dict);
  }

  function DictPayload(d: Dict): (b: seq<Byte>) {
    LE(|d.entries|, 2) + Fsst.RowBytes(d.entries) + d.indices
  }

  // The bytes of a dictionary page of the rows.
  ghost predicate IsDictPage(rows: seq<Text>, b: seq<Byte>) {
    exists d :: rows != [] && IsDict(rows, Some(d)) && b == DictPayload(d)
  }

  method DictEncode(rows: seq<Text>, facts: Option<Dict>) returns (r: Option<seq<Byte>>)
    requires facts.Some? ==> IsDict(rows, facts)
    ensures r.Some? ==> IsDictPage(rows, r.value)
    ensures r.None? ==> rows == [] || |Entries(rows)| > DICT_MAX
  {
    hide LE, IsDict, Fsst.RowBytes;
    if |rows| == 0 {
      return None;
    }
    var d := facts;
    if d.None? {
      d := BuildDict(rows);
      if d.None? {
        TooManyEntries(rows);
        return None;
      }
    }
    var out := LE(|d.value.entries|, 2);
    out := Fsst.AppendRows(out, d.value.entries);
    out := out + d.value.indices;
    r := Some(out);
    assert out == DictPayload(d.value);
  }

  lemma TooManyEntries(rows: seq<Text>)
    requires IsDict(rows, None)
    ensures |Entries(rows)| > DICT_MAX
  {
  }

  function ParseDict(b: seq<Byte>, rows: nat): (d: Option<(seq<Text>, seq<Byte>)>)
    ensures d.Some? ==> 1 <= |d.value.0| <= DICT_MAX && |d.value.1| == rows
  {
    if |b| < 2 then None
    else
      var count := FromLE(b[..2]);
      if count == 0 || count > DICT_MAX then None
      else
        match ReadValues(b, 2, count)
        case None => None
        case Some((es, pos)) => if pos + rows != |b| then None else Some((es, b[pos..pos + rows]))
  }

  function DictDecoded(b: seq<Byte>, rows: nat): Option<seq<Text>> {
    if rows == 0 then (if |b| != 0 then None else Some([]))
    else
      match ParseDict(b, rows)
      case None => None
      case Some((es, is_)) =>
        if exists i :: 0 <= i < rows && is_[i] >= |es| then None
        else Some(seq(rows, i requires 0 <= i < rows => if is_[i] < |es| then es[is_[i]] else []))
  }

  lemma EntriesStorable(rows: seq<Text>)
    requires Storable(rows)
    ensures forall i :: 0 <= i < |Entries(rows)| ==> |Entries(rows)[i]| < U32_LIMIT
  {
    EntriesAre(rows);
    forall i | 0 <= i < |Entries(rows)| ensures |Entries(rows)[i]| < U32_LIMIT { assert Entries(rows)[i] in rows; }
  }

  // An encoder-produced dictionary page parses to its entries and indices.
  lemma DictParses(rows: seq<Text>, b: seq<Byte>)
    requires Storable(rows) && IsDictPage(rows, b)
    ensures |Entries(rows)| <= DICT_MAX && ParseDict(b, |rows|) == Some((Entries(rows), Indices(rows)))
    ensures |b| == 2 + PlainSize(Entries(rows)) + |rows|
  {
    hide LE, FromLE, Entries, Indices, ReadValues, Fsst.RowBytes, PlainSize;
    var d :| rows != [] && IsDict(rows, Some(d)) && b == DictPayload(d);
    EntriesStorable(rows);
    EntriesAre(rows);
    Widths();
    FromLEOfLE(|d.entries|, 2);
    assert b[..2] == LE(|d.entries|, 2);
    ReadValuesOf(LE(|d.entries|, 2), d.entries, d.indices);
    PlainSizeExact(d.entries);
    var pos := 2 + |Fsst.RowBytes(d.entries)|;
    assert b[pos..pos + |rows|] == d.indices;
  }

  lemma DictPagesAgree(rows: seq<Text>, a: seq<Byte>, b: seq<Byte>)
    requires IsDictPage(rows, a) && IsDictPage(rows, b)
    ensures |a| == |b|
  {
    hide LE, Fsst.RowBytes;
    var d :| IsDict(rows, Some(d)) && a == DictPayload(d);
    var e :| IsDict(rows, Some(e)) && b == DictPayload(e);
  }

  lemma {:induction false} NoDictPage(rows: seq<Text>)
    requires rows == [] || |Entries(rows)| > DICT_MAX
    ensures forall b :: !IsDictPage(rows, b)
  {
    forall d | rows != [] ensures !IsDict(rows, Some(d)) {
    }
  }

  lemma EqualRowsOneEntry(rows: seq<Text>)
    requires AllEqual(rows)
    ensures |Entries(rows)| <= 1
  {
    EntriesAre(rows);
    forall k | 0 <= k < |Entries(rows)| ensures Entries(rows)[k] == rows[0] { assert Entries(rows)[k] in rows; }
  }

  lemma ConstantIsShort(rows: seq<Text>)
    ensures |ConstantPayload(rows)| <= PlainSize(rows)
  {
    if rows != [] { FirstFits(rows); }
  }

  lemma {:induction false} FirstFits(rows: seq<Text>)
    requires rows != []
    ensures 4 + |rows[0]| <= PlainSize(rows)
  {
    if |rows| > 1 { FirstFits(rows[..|rows| - 1]); }
  }

  lemma DictRoundTrip(rows: seq<Text>, b: seq<Byte>)
    requires Storable(rows) && IsDictPage(rows, b)
    ensures DictDecoded(b, |rows|) == Some(rows)
    ensures |b| > 0
  {
    hide ParseDict, Entries, PlainSize, DictPayload;
    DictParses(rows, b);
    var es, is_ := Entries(rows), Indices(rows);
    assert seq(|rows|, i requires 0 <= i < |rows| => if is_[i] < |es| then es[is_[i]] else []) == rows;
  }
}
