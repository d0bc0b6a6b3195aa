// The FSST text codec: greedy longest-match encoding against a symbol table,
// its inverse, the page layout, and equality tested on the encoded bytes.
module Fsst {
  import opened Options
  import opened Bytes
  import opened Sorting

  const ESCAPE: nat := 255
  const MAX_SYMBOLS: nat := 255

  type Symbols = seq<seq<Byte>>

  // What newFSSTCoder is given: at most 255 distinct symbols, none of them empty.
  predicate Table(symbols: Symbols) {
    && |symbols| <= MAX_SYMBOLS
    && (forall i :: 0 <= i < |symbols| ==> symbols[i] != [])
    && (forall i, j :: 0 <= i < j < |symbols| ==> symbols[i] != symbols[j])
  }

  // ----- the reference encoding -----

  // The longest of the first n symbols that s starts with.
  function Longest(symbols: Symbols, s: seq<Byte>, n: nat): (id: Option<nat>)
    requires n <= |symbols|
    ensures id.Some? ==> id.value < n && symbols[id.value] <= s
    ensures forall k :: 0 <= k < n && symbols[k] <= s ==> id.Some? && |symbols[k]| <= |symbols[id.value]|
  {
    if n == 0 then None
    else
      var best := Longest(symbols, s, n - 1);
      if symbols[n - 1] <= s && (best.None? || |symbols[best.value]| < |symbols[n - 1]|) then Some(n - 1) else best
  }

  function Encode(symbols: Symbols, s: seq<Byte>): (e: seq<Byte>)
    requires Table(symbols)
    ensures |e| <= 2 * |s|
    decreases |s|
  {
    if s == [] then []
    else
      match Longest(symbols, s, |symbols|)
      case Some(id) => [id] + Encode(symbols, s[|symbols[id]|..])
      case None => [ESCAPE, s[0]] + Encode(symbols, s[1..])
  }

  lemma EncodeHead(symbols: Symbols, s: seq<Byte>)
    requires Table(symbols) && s != []
    ensures var id := Longest(symbols, s, |symbols|);
      if id.Some? then symbols[id.value] != [] && id.value < 255 && Encode(symbols, s) == [id.value] + Encode(symbols, s[|symbols[id.value]|..])
      else Encode(symbols, s) == [ESCAPE, s[0]] + Encode(symbols, s[1..])
  {
    hide Longest;
  }

  // ----- the reference decoding -----

  function Prepend(a: seq<Byte>, s: Option<seq<Byte>>): Option<seq<Byte>> {
    match s
    case None => None
    case Some(t) => Some(a + t)
  }

  function Decode(symbols: Symbols, e: seq<Byte>): (s: Option<seq<Byte>>)
    decreases |e|
  {
    if e == [] then Some([])
    else if e[0] == ESCAPE then
      if |e| < 2 then None else Prepend([e[1]], Decode(symbols, e[2..]))
    else if e[0] >= |symbols| then None
    else Prepend(symbols[e[0]], Decode(symbols, e[1..]))
  }

  // Decoding undoes the greedy encoding of every byte string.
  lemma {:induction false} DecodeOfEncode(symbols: Symbols, s: seq<Byte>)
    requires Table(symbols)
    ensures Decode(symbols, Encode(symbols, s)) == Some(s)
    decreases |s|
  {
    if s == [] {
      return;
    }
    EncodeHead(symbols, s);
    var id := Longest(symbols, s, |symbols|);
    hide Longest, Encode;
    if id.Some? {
      var sym := symbols[id.value];
      DecodeOfEncode(symbols, s[|sym|..]);
      DecodeCode(symbols, id.value, Encode(symbols, s[|sym|..]));
      assert sym + s[|sym|..] == s;
    } else {
      DecodeOfEncode(symbols, s[1..]);
      DecodeEscape(symbols, s[0], Encode(symbols, s[1..]));
      assert [s[0]] + s[1..] == s;
    }
  }

  lemma DecodeCode(symbols: Symbols, id: nat, e: seq<Byte>)
    requires id < |symbols| <= MAX_SYMBOLS
    ensures Decode(symbols, [id] + e) == Prepend(symbols[id], Decode(symbols, e))
  {
    assert ([id] + e)[1..] == e;
  }

  lemma DecodeEscape(symbols: Symbols, b: Byte, e: seq<Byte>)
    ensures Decode(symbols, [ESCAPE, b] + e) == Prepend([b], Decode(symbols, e))
  {
    assert ([ESCAPE, b] + e)[2..] == e;
  }

  // Equality on encoded bytes is equality.
  lemma EncodeExact(symbols: Symbols, a: seq<Byte>, b: seq<Byte>)
    requires Table(symbols)
    ensures Encode(symbols, a) == Encode(symbols, b) <==> a == b
  {
    DecodeOfEncode(symbols, a);
    DecodeOfEncode(symbols, b);
  }

  // ----- the coder: symbol ids bucketed by first byte, longest first -----

  // The buckets list every symbol once under its first byte, in order of
  // decreasing length; symbols of equal length may stand in any order.
  ghost predicate IsCoder(symbols: Symbols, byHead: seq<seq<Byte>>) {
    && |byHead| == 256
    && (forall b, k :: 0 <= b < 256 && 0 <= k < |byHead[b]| ==> byHead[b][k] < |symbols| && symbols[byHead[b][k]] != [] && symbols[byHead[b][k]][0] == b)
    && (forall id :: 0 <= id < |symbols| ==> symbols[id] != [] && id in byHead[symbols[id][0]])
    && (forall b :: 0 <= b < 256 ==> LongestFirst(symbols, byHead[b]))
  }

  predicate LongestFirst(symbols: Symbols, ids: seq<Byte>) {
    && (forall k :: 0 <= k < |ids| ==> ids[k] < |symbols|)
    && (forall j, k :: 0 <= j < k < |ids| ==> |symbols[ids[j]]| >= |symbols[ids[k]]|)
  }

  predicate Longer(symbols: Symbols, a: Byte, b: Byte) {
    (if a < |symbols| then |symbols[a]| else 0) > (if b < |symbols| then |symbols[b]| else 0)
  }

  method SortByLength(symbols: Symbols, ids: seq<Byte>) returns (r: seq<Byte>)
    requires forall k :: 0 <= k < |ids| ==> ids[k] < |symbols|
    ensures LongestFirst(symbols, r) && forall x :: x in r <==> x in ids
  {
    var longer := (a: Byte, b: Byte) => Longer(symbols, a, b);
    r := Sort(ids, longer);
    SortSorts(ids, longer);
    SortMultiset(ids, longer);
    MultisetMembers(r, ids);
    forall k | 0 <= k < |r| ensures r[k] < |symbols| {
      assert r[k] in ids;
    }
    forall j, k | 0 <= j < k < |r| ensures |symbols[r[j]]| >= |symbols[r[k]]| {
      assert !longer(r[k], r[j]);
    }
  }

  method NewCoder(symbols: Symbols) returns (byHead: seq<seq<Byte>>)
    requires Table(symbols)
    ensures IsCoder(symbols, byHead)
  {
    var buckets := FillBuckets(symbols);
    byHead := [];
    for b := 0 to 256
      invariant |byHead| == b
      invariant forall c :: 0 <= c < b ==> LongestFirst(symbols, byHead[c]) && forall x :: x in byHead[c] <==> x in buckets[c]
    {
      var ids := SortByLength(symbols, buckets[b]);
      byHead := byHead + [ids];
    }
    assert forall b, k :: 0 <= b < 256 && 0 <= k < |byHead[b]| ==> byHead[b][k] in buckets[b];
  }

  method FillBuckets(symbols: Symbols) returns (buckets: seq<seq<Byte>>)
    requires Table(symbols)
    ensures |buckets| == 256
    ensures forall b, k :: 0 <= b < 256 && 0 <= k < |buckets[b]| ==> buckets[b][k] < |symbols| && symbols[buckets[b][k]][0] == b
    ensures forall id :: 0 <= id < |symbols| ==> id in buckets[symbols[id][0]]
  {
    buckets := seq(256, _ => []);
    for i := 0 to |symbols|
      invariant |buckets| == 256
      invariant forall b, k :: 0 <= b < 256 && 0 <= k < |buckets[b]| ==> buckets[b][k] < i && symbols[buckets[b][k]][0] == b
      invariant forall id :: 0 <= id < i ==> id in buckets[symbols[id][0]]
    {
      var head := symbols[i][0];
      ghost var before := buckets;
      buckets := buckets[head := buckets[head] + [i]];
      forall id | 0 <= id <= i ensures id in buckets[symbols[id][0]] {
        if id < i { assert id in before[symbols[id][0]]; } else { assert buckets[head][|before[head]|] == i; }
      }
    }
  }

  // The first match in a bucket is the longest match in the whole table, however
  // ties were ordered: two matches of one length are the same symbol.
  lemma FirstMatchIsLongest(symbols: Symbols, byHead: seq<seq<Byte>>, s: seq<Byte>, k: nat)
    requires Table(symbols) && IsCoder(symbols, byHead) && s != [] && k < |byHead[s[0]]|
    requires symbols[byHead[s[0]][k]] <= s
    requires forall j :: 0 <= j < k ==> !(symbols[byHead[s[0]][j]] <= s)
    ensures Longest(symbols, s, |symbols|) == Some(byHead[s[0]][k])
  {
    hide *;
    BucketIsOrdered(symbols, byHead, s[0]);
    var ids := byHead[s[0]];
    assert 0 <= ids[k] < |symbols|;
    var best := Longest(symbols, s, |symbols|).value;
    var m := InBucket(symbols, byHead, s, best);
    SameSymbol(symbols, s, ids, k, m);
  }

  lemma BucketIsOrdered(symbols: Symbols, byHead: seq<seq<Byte>>, b: Byte)
    requires IsCoder(symbols, byHead)
    ensures |byHead| == 256 && LongestFirst(symbols, byHead[b])
    ensures forall k :: 0 <= k < |byHead[b]| ==> byHead[b][k] < |symbols|
  {
  }

  lemma InBucket(symbols: Symbols, byHead: seq<seq<Byte>>, s: seq<Byte>, id: nat) returns (m: nat)
    requires IsCoder(symbols, byHead) && s != [] && id < |symbols| && symbols[id] <= s
    ensures m < |byHead[s[0]]| && byHead[s[0]][m] == id
  {
    assert symbols[id][0] == s[0];
    m :| 0 <= m < |byHead[s[0]]| && byHead[s[0]][m] == id;
  }

  lemma SameSymbol(symbols: Symbols, s: seq<Byte>, ids: seq<Byte>, k: nat, m: nat)
    requires Table(symbols) && LongestFirst(symbols, ids) && k < |ids| && m < |ids|
    requires symbols[ids[k]] <= s && symbols[ids[m]] <= s
    requires forall j :: 0 <= j < k ==> !(symbols[ids[j]] <= s)
    requires |symbols[ids[k]]| <= |symbols[ids[m]]|
    ensures ids[k] == ids[m]
  {
    assert k <= m;
    assert |symbols[ids[k]]| == |symbols[ids[m]]|;
    assert symbols[ids[k]] == s[..|symbols[ids[k]]|] == symbols[ids[m]];
  }

  lemma NoMatchInBucket(symbols: Symbols, byHead: seq<seq<Byte>>, s: seq<Byte>)
    requires Table(symbols) && IsCoder(symbols, byHead) && s != []
    requires forall j :: 0 <= j < |byHead[s[0]]| ==> !(symbols[byHead[s[0]][j]] <= s)
    ensures Longest(symbols, s, |symbols|) == None
  {
    forall id | 0 <= id < |symbols| ensures !(symbols[id] <= s) {
      if symbols[id][0] == s[0] {
        var m :| 0 <= m < |byHead[s[0]]| && byHead[s[0]][m] == id;
      }
    }
  }

  lemma NotAPrefix(input: seq<Byte>, i: nat, sym: seq<Byte>)
    requires i <= |input| && (i + |sym| <= |input| ==> input[i..i + |sym|] != sym)
    ensures !(sym <= input[i..])
  {
    if i + |sym| <= |input| { assert input[i..][..|sym|] == input[i..i + |sym|]; }
  }

  // One lookup: the code of the longest symbol the input continues with.
  method FindMatch(symbols: Symbols, byHead: seq<seq<Byte>>, input: seq<Byte>, i: nat) returns (id: Option<Byte>)
    requires Table(symbols) && IsCoder(symbols, byHead) && i < |input|
    ensures id == Longest(symbols, input[i..], |symbols|)
  {
    ghost var s := input[i..];
    var ids := byHead[input[i]];
    for k := 0 to |ids|
      invariant forall j :: 0 <= j < k ==> !(symbols[ids[j]] <= s)
    {
      var sym := symbols[ids[k]];
      if i + |sym| <= |input| && input[i..i + |sym|] == sym {
        assert sym == s[..|sym|];
        if ids[k] == ESCAPE {
          continue;
        }
        FirstMatchIsLongest(symbols, byHead, s, k);
        return Some(ids[k]);
      }
      NotAPrefix(input, i, sym);
    }
    NoMatchInBucket(symbols, byHead, s);
    id := None;
  }

  method EncodeRow(symbols: Symbols, byHead: seq<seq<Byte>>, input: seq<Byte>) returns (out: seq<Byte>)
    requires Table(symbols) && IsCoder(symbols, byHead)
    ensures out == Encode(symbols, input)
  {
    hide IsCoder, Table, Longest, Encode;
    out := [];
    var i := 0;
    assert input[0..] == input && out + Encode(symbols, input) == Encode(symbols, input);
    EncodeNothing(symbols);
    while i < |input|
      invariant i <= |input|
      invariant Encode(symbols, input) == out + Encode(symbols, input[i..])
    {
      EncodeHead(symbols, input[i..]);
      var id := FindMatch(symbols, byHead, input, i);
      if id.Some? {
        DropMore(input, i, |symbols[id.value]|);
        Regrouped(out, [id.value], Encode(symbols, input[i + |symbols[id.value]|..]));
        out := out + [id.value];
        i := i + |symbols[id.value]|;
        continue;
      }
      DropMore(input, i, 1);
      Regrouped(out, [ESCAPE, input[i]], Encode(symbols, input[i + 1..]));
      out := out + [ESCAPE, input[i]];
      i := i + 1;
    }
    assert input[i..] == [] && out + [] == out;
  }

  lemma DropMore(s: seq<Byte>, i: nat, n: nat)
    requires i + n <= |s|
    ensures s[i..][n..] == s[i + n..]
  {
  }

  lemma Regrouped(a: seq<Byte>, b: seq<Byte>, c: seq<Byte>)
    ensures a + (b + c) == a + b + c
  {
  }

  lemma EncodeNothing(symbols: Symbols)
    requires Table(symbols)
    ensures Encode(symbols, []) == []
  {
  }

  // The loop that decodes one row.
  method DecodeRow(symbols: Symbols, e: seq<Byte>) returns (row: Option<seq<Byte>>)
    ensures row == Decode(symbols, e)
  {
    var out: seq<Byte> := [];
    var j := 0;
    assert e[0..] == e;
    PrependNothing(Decode(symbols, e));
    while j < |e|
      invariant j <= |e|
      invariant Decode(symbols, e) == Prepend(out, Decode(symbols, e[j..]))
    {
      if e[j] == ESCAPE {
        if j + 1 >= |e| {
          return None;
        }
        assert e[j..][2..] == e[j + 2..];
        PrependStep(out, [e[j + 1]], Decode(symbols, e[j + 2..]));
        out := out + [e[j + 1]];
        j := j + 2;
        continue;
      }
      if e[j] >= |symbols| {
        return None;
      }
      assert e[j..][1..] == e[j + 1..];
      PrependStep(out, symbols[e[j]], Decode(symbols, e[j + 1..]));
      out := out + symbols[e[j]];
      j := j + 1;
    }
    assert e[j..] == [] && out + [] == out;
    row := Some(out);
  }

  lemma PrependNothing(s: Option<seq<Byte>>)
    ensures Prepend([], s) == s
  {
    if s.Some? { assert [] + s.value == s.value; }
  }

  lemma PrependStep(a: seq<Byte>, b: seq<Byte>, s: Option<seq<Byte>>)
    ensures Prepend(a, Prepend(b, s)) == Prepend(a + b, s)
  {
    if s.Some? { assert a + (b + s.value) == a + b + s.value; }
  }

  // ----- the page layout -----

  const MAGIC: seq<Byte> := [0x46, 0x53, 0x54, 0x31]

  function SymbolBytes(symbols: Symbols): (b: seq<Byte>)
    requires forall i :: 0 <= i < |symbols| ==> |symbols[i]| < 256
  {
    if symbols == [] then [] else [|symbols[0]|] + symbols[0] + SymbolBytes(symbols[1..])
  }

  function RowBytes(rows: seq<seq<Byte>>): (b: seq<Byte>) {
    if rows == [] then [] else LE(|rows[0]|, 4) + rows[0] + RowBytes(rows[1..])
  }

  function Page(symbols: Symbols, encoded: seq<seq<Byte>>): (b: seq<Byte>)
    requires |symbols| <= MAX_SYMBOLS && forall i :: 0 <= i < |symbols| ==> |symbols[i]| < 256
  {
    MAGIC + [|symbols|] + SymbolBytes(symbols) + LE(|encoded|, 4) + RowBytes(encoded)
  }

  datatype Header = Header(symbols: Symbols, rowsOff: nat, rowCount: nat)

  // The n symbols stored from pos on, and where they end.
  function ReadSymbols(payload: seq<Byte>, pos: nat, n: nat): (r: Option<(Symbols, nat)>)
    ensures r.Some? ==> |r.value.0| == n && r.value.1 <= |payload| + (if n == 0 then pos else 0)
    decreases n
  {
    if n == 0 then Some(([], pos))
    else if pos + 1 > |payload| || pos + 1 + payload[pos] > |payload| then None
    else
      var next := pos + 1 + payload[pos];
      match ReadSymbols(payload, next, n - 1)
      case None => None
      case Some(rest) => Some(([payload[pos + 1..next]] + rest.0, rest.1))
  }

  function ParseHeader(payload: seq<Byte>): (h: Option<Header>)
    ensures h.Some? ==> h.value.rowsOff <= |payload|
  {
    if |payload| < 5 || payload[..4] != MAGIC then None
    else
      match ReadSymbols(payload, 5, payload[4])
      case None => None
      case Some((symbols, pos)) =>
        if pos + 4 > |payload| then None
        else Some(Header(symbols, pos + 4, FromLE(payload[pos..pos + 4])))
  }

  // The n stored rows from pos on.
  function ReadRows(payload: seq<Byte>, pos: nat, n: nat): (r: Option<seq<seq<Byte>>>)
    ensures r.Some? ==> |r.value| == n
    decreases n
  {
    if n == 0 then Some([])
    else if pos + 4 > |payload| || pos + 4 + FromLE(payload[pos..pos + 4]) > |payload| then None
    else
      var next := pos + 4 + FromLE(payload[pos..pos + 4]);
      match ReadRows(payload, next, n - 1)
      case None => None
      case Some(rest) => Some([payload[pos + 4..next]] + rest)
  }

  lemma Parts(b: seq<Byte>, pos: nat, x: seq<Byte>, y: seq<Byte>, z: seq<Byte>)
    requires pos + |x| + |y| + |z| <= |b| && b[pos..pos + |x| + |y| + |z|] == x + y + z
    ensures b[pos..pos + |x|] == x && b[pos + |x|..pos + |x| + |y|] == y && b[pos + |x| + |y|..pos + |x| + |y| + |z|] == z
  {
    var m, n, end := |x|, |x| + |y|, |x| + |y| + |z|;
    SliceOfSlice(b, pos, pos + end, 0, m);
    SliceOfSlice(b, pos, pos + end, m, n);
    SliceOfSlice(b, pos, pos + end, n, end);
    assert (x + y + z)[0..m] == x && (x + y + z)[m..n] == y && (x + y + z)[n..end] == z;
  }

  lemma {:induction false} SymbolsAt(b: seq<Byte>, pos: nat, symbols: Symbols)
    requires forall i :: 0 <= i < |symbols| ==> |symbols[i]| < 256
    requires pos + |SymbolBytes(symbols)| <= |b| && b[pos..pos + |SymbolBytes(symbols)|] == SymbolBytes(symbols)
    ensures ReadSymbols(b, pos, |symbols|) == Some((symbols, pos + |SymbolBytes(symbols)|))
    decreases |symbols|
  {
    if symbols != [] {
      var s, more := symbols[0], symbols[1..];
      Parts(b, pos, [|s|], s, SymbolBytes(more));
      assert b[pos] == b[pos..pos + 1][0];
      SymbolsAt(b, pos + 1 + |s|, more);
      assert [s] + more == symbols;
    }
  }

  lemma ReadSymbolsOf(head: seq<Byte>, symbols: Symbols, tail: seq<Byte>)
    requires forall i :: 0 <= i < |symbols| ==> |symbols[i]| < 256
    ensures ReadSymbols(head + SymbolBytes(symbols) + tail, |head|, |symbols|)
      == Some((symbols, |head| + |SymbolBytes(symbols)|))
  {
    hide SymbolBytes, ReadSymbols;
    Middle(head, SymbolBytes(symbols), tail);
    SymbolsAt(head + SymbolBytes(symbols) + tail, |head|, symbols);
  }

  lemma {:induction false} ReadRowsOf(head: seq<Byte>, rows: seq<seq<Byte>>)
    requires forall i :: 0 <= i < |rows| ==> |rows[i]| < U32_LIMIT
    ensures ReadRows(head + RowBytes(rows), |head|, |rows|) == Some(rows)
    decreases |rows|
  {
    hide LE, FromLE;
    if rows != [] {
      var r := rows[0];
      var payload := head + RowBytes(rows);
      var head' := head + LE(|r|, 4) + r;
      assert payload == head' + RowBytes(rows[1..]);
      Widths();
      FromLEOfLE(|r|, 4);
      assert payload[|head|..|head| + 4] == LE(|r|, 4) && payload[|head| + 4..|head'|] == r;
      ReadRowsOf(head', rows[1..]);
      assert [r] + rows[1..] == rows;
    }
  }

  predicate Storable(symbols: Symbols, encoded: seq<seq<Byte>>) {
    && |symbols| <= MAX_SYMBOLS && |encoded| < U32_LIMIT
    && (forall i :: 0 <= i < |symbols| ==> |symbols[i]| < 256)
    && (forall i :: 0 <= i < |encoded| ==> |encoded[i]| < U32_LIMIT)
  }

  lemma Middle(a: seq<Byte>, b: seq<Byte>, c: seq<Byte>)
    ensures (a + b + c)[|a|..|a| + |b|] == b
  {
  }

  // The header and the encoded rows read back from a written page.
  lemma PageReads(symbols: Symbols, encoded: seq<seq<Byte>>)
    requires Storable(symbols, encoded)
    ensures var payload := Page(symbols, encoded);
      var h := ParseHeader(payload);
      && h.Some? && h.value.symbols == symbols && h.value.rowCount == |encoded|
      && ReadRows(payload, h.value.rowsOff, |encoded|) == Some(encoded)
  {
    hide LE, FromLE, SymbolBytes, RowBytes, ReadSymbols, ReadRows, ParseHeader;
    var head := MAGIC + [|symbols|];
    var n, rows := LE(|encoded|, 4), RowBytes(encoded);
    HeaderReads(symbols, n, rows);
    Widths();
    FromLEOfLE(|encoded|, 4);
    ReadRowsOf(head + SymbolBytes(symbols) + n, encoded);
  }

  lemma HeaderReads(symbols: Symbols, n: seq<Byte>, rows: seq<Byte>)
    requires |symbols| <= MAX_SYMBOLS && |n| == 4 && forall i :: 0 <= i < |symbols| ==> |symbols[i]| < 256
    ensures var head := MAGIC + [|symbols|] + SymbolBytes(symbols);
      ParseHeader(head + n + rows) == Some(Header(symbols, |head| + 4, FromLE(n)))
  {
    hide LE, FromLE, SymbolBytes, ReadSymbols;
    var head := MAGIC + [|symbols|];
    var mid := head + SymbolBytes(symbols);
    var payload := mid + n + rows;
    assert payload == mid + (n + rows);
    ReadSymbolsOf(head, symbols, n + rows);
    assert payload[..4] == MAGIC && payload[4] == |symbols|;
    Middle(mid, n, rows);
  }

  // ----- encoding and decoding a page -----

  method EncodePage(symbols: Symbols, rows: seq<seq<Byte>>) returns (payload: seq<Byte>)
    requires Table(symbols) && |rows| < U32_LIMIT
    requires forall i :: 0 <= i < |symbols| ==> |symbols[i]| < 256
    requires forall i :: 0 <= i < |rows| ==> 2 * |rows[i]| < U32_LIMIT
    ensures payload == Page(symbols, EncodeAll(symbols, rows))
  {
    hide IsCoder, Encode, LE;
    var codes := NewCoder(symbols);
    var encoded: seq<seq<Byte>> := [];
    for i := 0 to |rows|
      invariant |encoded| == i && forall k :: 0 <= k < i ==> encoded[k] == Encode(symbols, rows[k])
    {
      var enc := EncodeRow(symbols, codes, rows[i]);
      encoded := encoded + [enc];
    }
    assert encoded == EncodeAll(symbols, rows);
    payload := WritePage(symbols, encoded);
  }

  method WritePage(symbols: Symbols, encoded: seq<seq<Byte>>) returns (payload: seq<Byte>)
    requires |symbols| <= MAX_SYMBOLS && forall i :: 0 <= i < |symbols| ==> |symbols[i]| < 256
    ensures payload == Page(symbols, encoded)
  {
    hide LE;
    payload := MAGIC + [|symbols|];
    ghost var head := payload;
    for i := 0 to |symbols|
      invariant payload + SymbolBytes(symbols[i..]) == head + SymbolBytes(symbols)
    {
      assert symbols[i..][1..] == symbols[i + 1..];
      assert payload + [|symbols[i]|] + symbols[i] + SymbolBytes(symbols[i + 1..]) == payload + SymbolBytes(symbols[i..]);
      payload := payload + [|symbols[i]|] + symbols[i];
    }
    assert payload + SymbolBytes(symbols[|symbols|..]) == payload;
    payload := payload + LE(|encoded|, 4);
    payload := AppendRows(payload, encoded);
  }

  method AppendRows(top: seq<Byte>, encoded: seq<seq<Byte>>) returns (payload: seq<Byte>)
    ensures payload == top + RowBytes(encoded)
  {
    hide LE;
    payload := top;
    for i := 0 to |encoded|
      invariant payload + RowBytes(encoded[i..]) == top + RowBytes(encoded)
    {
      assert encoded[i..][1..] == encoded[i + 1..];
      assert payload + LE(|encoded[i]|, 4) + encoded[i] + RowBytes(encoded[i + 1..]) == payload + RowBytes(encoded[i..]);
      payload := payload + LE(|encoded[i]|, 4) + encoded[i];
    }
    assert payload + RowBytes(encoded[|encoded|..]) == payload;
  }

  function EncodeAll(symbols: Symbols, rows: seq<seq<Byte>>): (e: seq<seq<Byte>>)
    requires Table(symbols)
    ensures |e| == |rows| && forall i :: 0 <= i < |rows| ==> e[i] == Encode(symbols, rows[i])
  {
    seq(|rows|, i requires 0 <= i < |rows| => Encode(symbols, rows[i]))
  }

  function DecodeAll(symbols: Symbols, encoded: seq<seq<Byte>>): (rows: Option<seq<seq<Byte>>>)
    ensures rows.Some? ==> |rows.value| == |encoded|
  {
    if encoded == [] then Some([])
    else
      match (DecodeAll(symbols, encoded[..|encoded| - 1]), Decode(symbols, encoded[|encoded| - 1]))
      case (Some(rest), Some(row)) => Some(rest + [row])
      case _ => None
  }

  // Decoding a payload that is asked for the given number of rows.
  function DecodedPage(payload: seq<Byte>, rows: nat): Option<seq<seq<Byte>>> {
    match ParseHeader(payload)
    case None => None
    case Some(h) =>
      if h.rowCount != rows then None
      else
        match ReadRows(payload, h.rowsOff, rows)
        case None => None
        case Some(encoded) => DecodeAll(h.symbols, encoded)
  }

  lemma {:induction false} DecodeAllOfEncodeAll(symbols: Symbols, rows: seq<seq<Byte>>)
    requires Table(symbols)
    ensures DecodeAll(symbols, EncodeAll(symbols, rows)) == Some(rows)
  {
    hide Encode, Decode, Table;
    if rows != [] {
      var n := |rows| - 1;
      DecodeAllOfEncodeAll(symbols, rows[..n]);
      assert EncodeAll(symbols, rows)[..n] == EncodeAll(symbols, rows[..n]);
      DecodeOfEncode(symbols, rows[n]);
      assert rows[..n] + [rows[n]] == rows;
    }
  }

  // The page round trip.
  lemma PageRoundTrip(symbols: Symbols, rows: seq<seq<Byte>>)
    requires Table(symbols) && |rows| < U32_LIMIT
    requires forall i :: 0 <= i < |symbols| ==> |symbols[i]| < 256
    requires forall i :: 0 <= i < |rows| ==> 2 * |rows[i]| < U32_LIMIT
    ensures DecodedPage(Page(symbols, EncodeAll(symbols, rows)), |rows|) == Some(rows)
  {
    hide Encode, Decode, Page, ParseHeader, ReadRows;
    PageReads(symbols, EncodeAll(symbols, rows));
    DecodeAllOfEncodeAll(symbols, rows);
  }

  // ----- equality without decoding -----

  // Selects the rows whose encoded bytes equal the encoded target.
  method EvalEncodedEq(payload: seq<Byte>, rows: nat, valid: Option<seq<bool>>, target: seq<Byte>) returns (sel: Option<seq<bool>>)
    requires valid.Some? ==> |valid.value| == rows
    requires ParseHeader(payload).Some? ==> Table(ParseHeader(payload).value.symbols)
    ensures var h := ParseHeader(payload);
      if h.None? || h.value.rowCount != rows || ReadRows(payload, h.value.rowsOff, rows).None? then sel == None
      else
        var encoded := ReadRows(payload, h.value.rowsOff, rows).value;
        && sel.Some? && |sel.value| == rows
        && forall i :: 0 <= i < rows ==>
             (sel.value[i] <==> encoded[i] == Encode(h.value.symbols, target) && (valid.Some? ==> valid.value[i]))
  {
    hide Table, IsCoder, Encode, ParseHeader;
    var h := ParseHeader(payload);
    if h.None? || h.value.rowCount != rows {
      return None;
    }
    var symbols := h.value.symbols;
    var codes := NewCoder(symbols);
    var lit := EncodeRow(symbols, codes, target);
    var mask: seq<bool> := [];
    var pos := h.value.rowsOff;
    ghost var encoded: seq<seq<Byte>> := [];
    PrependNoRows(ReadRows(payload, pos, rows));
    for i := 0 to rows
      invariant |mask| == i && |encoded| == i && pos >= 0
      invariant forall k :: 0 <= k < i ==> (mask[k] <==> encoded[k] == lit)
      invariant ReadRows(payload, h.value.rowsOff, rows) == PrependRows(encoded, ReadRows(payload, pos, rows - i))
    {
      if pos + 4 > |payload| {
        return None;
      }
      var len := FromLE(payload[pos..pos + 4]);
      if pos + 4 + len > |payload| {
        return None;
      }
      var row := payload[pos + 4..pos + 4 + len];
      mask := mask + [len == |lit| && row == lit];
      PrependRowsStep(encoded, row, ReadRows(payload, pos + 4 + len, rows - i - 1));
      encoded := encoded + [row];
      pos := pos + 4 + len;
    }
    assert encoded + [] == encoded;
    if valid.Some? {
      mask := seq(rows, i requires 0 <= i < rows => mask[i] && valid.value[i]);
    }
    sel := Some(mask);
  }

  function PrependRows(a: seq<seq<Byte>>, r: Option<seq<seq<Byte>>>): Option<seq<seq<Byte>>> {
    match r
    case None => None
    case Some(b) => Some(a + b)
  }

  lemma PrependNoRows(r: Option<seq<seq<Byte>>>)
    ensures PrependRows([], r) == r
  {
    if r.Some? { assert [] + r.value == r.value; }
  }

  lemma PrependRowsStep(a: seq<seq<Byte>>, row: seq<Byte>, r: Option<seq<seq<Byte>>>)
    ensures PrependRows(a + [row], r) == PrependRows(a, match r case None => None case Some(b) => Some([row] + b))
  {
    if r.Some? { assert a + ([row] + r.value) == a + [row] + r.value; }
  }

  // On every page the encoder wrote, the encoded comparison selects exactly the
  // rows that equal the target.
  method EqOnPage(symbols: Symbols, rows: seq<seq<Byte>>, valid: Option<seq<bool>>, target: seq<Byte>) returns (sel: Option<seq<bool>>)
    requires Table(symbols) && |rows| < U32_LIMIT
    requires forall i :: 0 <= i < |symbols| ==> |symbols[i]| < 256
    requires forall i :: 0 <= i < |rows| ==> 2 * |rows[i]| < U32_LIMIT
    requires valid.Some? ==> |valid.value| == |rows|
    ensures sel.Some? && |sel.value| == |rows|
    ensures forall i :: 0 <= i < |rows| ==> (sel.value[i] <==> rows[i] == target && (valid.Some? ==> valid.value[i]))
  {
    hide Page, ParseHeader, ReadRows, Encode;
    var payload := EncodePage(symbols, rows);
    PageReads(symbols, EncodeAll(symbols, rows));
    sel := EvalEncodedEq(payload, |rows|, valid, target);
    forall i | 0 <= i < |rows| ensures sel.value[i] <==> rows[i] == target && (valid.Some? ==> valid.value[i]) {
      EncodeExact(symbols, rows[i], target);
    }
  }
}
