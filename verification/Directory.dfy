// The page directory: what the writer records for every page, what the reader
// demands of it, and reading a page back from the file.
module Directory {
  import opened Options
  import opened Bytes
  import opened BitWords
  import opened Selection
  import opened Validity
  import opened Footer

  const MAGIC: seq<Byte> := [68, 82, 73, 80, 86, 52, 83, 51]
  const MAX_ROWS: nat := U32_LIMIT - 1

  const ALL_VALID: Byte := 1
  const ALL_NULL: Byte := 2

  const MARKER_MIXED: Byte := 0
  const MARKER_ALL_VALID: Byte := 1
  const MARKER_ALL_NULL: Byte := 2

  // One column of a batch: its null bitmap, the encoding the codecs chose with
  // its bytes, and the plain bytes used when only some rows are null.
  datatype Cell = Cell(valid: Option<seq<Word>>, encoding: Byte, encoded: seq<Byte>, plain: seq<Byte>)
  datatype Batch = Batch(rows: nat, cells: seq<Cell>)

  function RowsIn(pages: seq<Batch>): (n: nat) {
    if pages == [] then 0 else RowsIn(pages[..|pages| - 1]) + pages[|pages| - 1].rows
  }

  lemma {:induction false} RowsInPrefix(pages: seq<Batch>, i: nat)
    requires i <= |pages|
    ensures RowsIn(pages[..i]) <= RowsIn(pages)
  {
    if i < |pages| {
      RowsInPrefix(pages[..|pages| - 1], i);
      assert pages[..|pages| - 1][..i] == pages[..i];
    } else {
      assert pages[..i] == pages;
    }
  }

  lemma RowsInStep(pages: seq<Batch>, i: nat)
    requires i < |pages|
    ensures RowsIn(pages[..i + 1]) == RowsIn(pages[..i]) + pages[i].rows
  {
    assert pages[..i + 1][..i] == pages[..i];
  }

  predicate CellShaped(c: Cell, rows: nat) {
    c.valid.Some? ==> WordsFor(rows) <= |c.valid.value|
  }

  // What the writer checks of its input before it writes anything.
  predicate Shaped(pages: seq<Batch>) {
    && pages != [] && pages[0].cells != [] && RowsIn(pages) <= MAX_ROWS
    && forall i :: 0 <= i < |pages| ==> BatchShaped(pages[i], |pages[0].cells|)
  }

  predicate BatchShaped(b: Batch, width: nat) {
    |b.cells| == width && forall k :: 0 <= k < width ==> CellShaped(b.cells[k], b.rows)
  }

  function Nulls(c: Cell, rows: nat): (n: nat)
    ensures n <= rows
  {
    NullsIn(ValidRows(c.valid, rows))
  }

  function NullsOf(pages: seq<Batch>, ci: nat): (n: nat)
    requires forall i :: 0 <= i < |pages| ==> ci < |pages[i].cells|
    ensures n <= RowsIn(pages)
  {
    if pages == [] then 0
    else NullsOf(pages[..|pages| - 1], ci) + Nulls(pages[|pages| - 1].cells[ci], pages[|pages| - 1].rows)
  }

  lemma NullsOfStep(pages: seq<Batch>, ci: nat, i: nat)
    requires i < |pages| && forall k :: 0 <= k < |pages| ==> ci < |pages[k].cells|
    ensures NullsOf(pages[..i + 1], ci) == NullsOf(pages[..i], ci) + Nulls(pages[i].cells[ci], pages[i].rows)
  {
    assert pages[..i + 1][..i] == pages[..i];
  }

  datatype Summary = Summary(rows: nat, nullCount: nat, marker: Byte)

  predicate Summarises(s: Summary, pages: seq<Batch>, ci: nat)
    requires forall i :: 0 <= i < |pages| ==> ci < |pages[i].cells|
  {
    && s.rows == RowsIn(pages) && s.nullCount == NullsOf(pages, ci)
    && (s.marker == MARKER_ALL_NULL <==> 0 < s.rows == s.nullCount)
    && (s.marker == MARKER_ALL_VALID <==> s.nullCount == 0)
    && s.marker <= MARKER_ALL_NULL
  }

  method TotalNullCount(pages: seq<Batch>, ci: nat) returns (n: nat)
    requires forall i :: 0 <= i < |pages| ==> ci < |pages[i].cells| && CellShaped(pages[i].cells[ci], pages[i].rows)
    ensures n == NullsOf(pages, ci)
  {
    hide Nulls;
    n := 0;
    for i := 0 to |pages|
      invariant n == NullsOf(pages[..i], ci)
    {
      NullsOfStep(pages, ci, i);
      var nulls := CellNulls(pages[i].cells[ci], pages[i].rows);
      n := n + nulls;
    }
    assert pages[..|pages|] == pages;
  }

  method CellNulls(c: Cell, rows: nat) returns (n: nat)
    requires CellShaped(c, rows)
    ensures n == Nulls(c, rows)
  {
    hide *;
    n := 0;
    if c.valid.Some? {
      CellShapedWords(c, rows);
      n := NullCount(c.valid, rows);
    } else {
      n := NullCount(None, rows);
    }
    NullsAre(c, rows);
  }

  lemma CellShapedWords(c: Cell, rows: nat)
    requires CellShaped(c, rows) && c.valid.Some?
    ensures WordsFor(rows) <= |c.valid.value|
  {
  }

  lemma NullsAre(c: Cell, rows: nat)
    ensures Nulls(c, rows) == NullsIn(ValidRows(c.valid, rows))
  {
  }

  // Some page, some column, rows that fit 32 bits, as many cells in every page,
  // and a bit for every row in each null bitmap.
  lemma ShapedIs(pages: seq<Batch>)
    ensures Shaped(pages) <==>
      && pages != [] && pages[0].cells != [] && RowsIn(pages) < U32_LIMIT
      && (forall i :: 0 <= i < |pages| ==> |pages[i].cells| == |pages[0].cells|)
      && (forall i, k :: 0 <= i < |pages| && 0 <= k < |pages[i].cells| && pages[i].cells[k].valid.Some? ==>
            pages[i].rows <= 64 * |pages[i].cells[k].valid.value|)
  {
    hide RowsIn;
    forall i | 0 <= i < |pages| && pages != []
      ensures BatchShaped(pages[i], |pages[0].cells|) <==>
        (|pages[i].cells| == |pages[0].cells|
         && forall k :: 0 <= k < |pages[i].cells| && pages[i].cells[k].valid.Some? ==> pages[i].rows <= 64 * |pages[i].cells[k].valid.value|)
    {
      forall k | 0 <= k < |pages[i].cells| ensures CellShaped(pages[i].cells[k], pages[i].rows)
        <==> (pages[i].cells[k].valid.Some? ==> pages[i].rows <= 64 * |pages[i].cells[k].valid.value|)
      {
        EnoughWords(pages[i].cells[k], pages[i].rows);
      }
    }
  }

  lemma EnoughWords(c: Cell, rows: nat)
    ensures CellShaped(c, rows) <==> (c.valid.Some? ==> rows <= 64 * |c.valid.value|)
  {
  }

  method PrepareColumns(pages: seq<Batch>) returns (cols: Option<seq<Summary>>)
    ensures cols.Some? <==> Shaped(pages)
    ensures cols.Some? ==> |cols.value| == |pages[0].cells|
    ensures cols.Some? ==> forall k :: 0 <= k < |cols.value| ==> Summarises(cols.value[k], pages, k)
  {
    hide Nulls, NullsOf, WordsFor, CellShaped;
    if pages == [] || pages[0].cells == [] {
      return None;
    }
    var width := |pages[0].cells|;
    var rows := 0;
    for i := 0 to |pages|
      invariant rows == RowsIn(pages[..i]) <= MAX_ROWS
      invariant forall j :: 0 <= j < i ==> BatchShaped(pages[j], width)
    {
      RowsInStep(pages, i);
      RowsInPrefix(pages, i + 1);
      rows := rows + pages[i].rows;
      if rows > MAX_ROWS || |pages[i].cells| != width {
        return None;
      }
      for k := 0 to width
        invariant forall l :: 0 <= l < k ==> CellShaped(pages[i].cells[l], pages[i].rows)
      {
        if !CellShaped(pages[i].cells[k], pages[i].rows) {
          return None;
        }
      }
    }
    assert pages[..|pages|] == pages;
    var out: seq<Summary> := [];
    for k := 0 to width
      invariant |out| == k && forall l :: 0 <= l < k ==> Summarises(out[l], pages, l)
    {
      assert forall i :: 0 <= i < |pages| ==> BatchShaped(pages[i], width);
      var nulls := TotalNullCount(pages, k);
      var marker := if rows > 0 && nulls == rows then MARKER_ALL_NULL else if nulls == 0 then MARKER_ALL_VALID else MARKER_MIXED;
      out := out + [Summary(rows, nulls, marker)];
    }
    cols := Some(out);
  }

  // ----- writing -----

  predicate AllNull(c: Cell, rows: nat) {
    0 < rows == Nulls(c, rows)
  }

  // The bitmap of a page with some nulls must have exactly the words its buffer has room for.
  predicate CellWritable(c: Cell, rows: nat) {
    0 < Nulls(c, rows) < rows ==> c.valid.Some? && |c.valid.value| == WordsFor(rows)
  }

  function PayloadOf(c: Cell, rows: nat): (b: seq<Byte>) {
    if AllNull(c, rows) then []
    else if Nulls(c, rows) == 0 || c.valid.None? then c.encoded
    else Marshalled(c.valid.value) + c.plain
  }

  predicate Describes(p: Page, c: Cell, rows: nat, kind: Byte, rowStart: nat, plainEncoding: Byte) {
    && p.rowStart == rowStart && p.rows == rows && p.nullCount == Nulls(c, rows) && p.kind == kind && p.reserved == 0
    && p.flags == (if AllNull(c, rows) then ALL_NULL else if Nulls(c, rows) == 0 then ALL_VALID else 0)
    && p.encoding == (if 0 == Nulls(c, rows) then c.encoding else plainEncoding)
  }

  // The bytes of a page stand in the body where the page says, after the magic.
  predicate Placed(body: seq<Byte>, p: Page, payload: seq<Byte>) {
    && |MAGIC| <= p.offset && p.length == |payload| && p.offset - |MAGIC| + p.length <= |body|
    && body[p.offset - |MAGIC|..p.offset - |MAGIC| + p.length] == payload
  }

  // Payloads follow each other without gap or overlap.
  predicate Tiles(ps: seq<Page>, from: nat, to: nat) {
    if ps == [] then from == to
    else ps[|ps| - 1].offset + ps[|ps| - 1].length == to && Tiles(ps[..|ps| - 1], from, ps[|ps| - 1].offset)
  }

  lemma PlacedGrows(body: seq<Byte>, more: seq<Byte>, p: Page, payload: seq<Byte>)
    requires Placed(body, p, payload)
    ensures Placed(body + more, p, payload)
  {
    var at := p.offset - |MAGIC|;
    assert (body + more)[at..at + p.length] == body[at..at + p.length];
  }

  lemma PlacedAtEnd(body: seq<Byte>, p: Page, payload: seq<Byte>)
    requires p.offset == |MAGIC| + |body| && p.length == |payload|
    ensures Placed(body + payload, p, payload)
  {
    assert (body + payload)[|body|..|body| + |payload|] == payload;
  }

  lemma TilesStep(ps: seq<Page>, p: Page, from: nat, to: nat)
    requires Tiles(ps, from, p.offset) && p.offset + p.length == to
    ensures Tiles(ps + [p], from, to)
  {
    assert (ps + [p])[..|ps|] == ps;
  }

  ghost predicate PageWritten(body: seq<Byte>, p: Page, b: Batch, ci: nat, kind: Byte, rowStart: nat, plainEncoding: Byte)
    requires ci < |b.cells|
  {
    Describes(p, b.cells[ci], b.rows, kind, rowStart, plainEncoding) && Placed(body, p, PayloadOf(b.cells[ci], b.rows))
  }

  ghost predicate PagesWritten(body: seq<Byte>, ps: seq<Page>, pages: seq<Batch>, ci: nat, kind: Byte, plainEncoding: Byte)
    requires |ps| <= |pages| && forall i :: 0 <= i < |pages| ==> ci < |pages[i].cells|
  {
    forall i :: 0 <= i < |ps| ==> PageWritten(body, ps[i], pages[i], ci, kind, RowsIn(pages[..i]), plainEncoding)
  }

  // One column of the file: a page for every batch, in order.
  ghost predicate ColumnWritten(body: seq<Byte>, ps: seq<Page>, pages: seq<Batch>, ci: nat, kind: Byte, plainEncoding: Byte)
    requires forall i :: 0 <= i < |pages| ==> ci < |pages[i].cells|
  {
    |ps| == |pages| && PagesWritten(body, ps, pages, ci, kind, plainEncoding)
  }

  lemma PageWrittenGrows(body: seq<Byte>, more: seq<Byte>, p: Page, b: Batch, ci: nat, kind: Byte, rowStart: nat, plainEncoding: Byte)
    requires ci < |b.cells| && PageWritten(body, p, b, ci, kind, rowStart, plainEncoding)
    ensures PageWritten(body + more, p, b, ci, kind, rowStart, plainEncoding)
  {
    hide Placed, Describes;
    PlacedGrows(body, more, p, PayloadOf(b.cells[ci], b.rows));
  }

  lemma PagesWrittenGrow(body: seq<Byte>, more: seq<Byte>, ps: seq<Page>, pages: seq<Batch>, ci: nat, kind: Byte, plainEncoding: Byte)
    requires |ps| <= |pages| && forall i :: 0 <= i < |pages| ==> ci < |pages[i].cells|
    requires PagesWritten(body, ps, pages, ci, kind, plainEncoding)
    ensures PagesWritten(body + more, ps, pages, ci, kind, plainEncoding)
  {
    hide PageWritten, RowsIn;
    forall i | 0 <= i < |ps| ensures PageWritten(body + more, ps[i], pages[i], ci, kind, RowsIn(pages[..i]), plainEncoding) {
      PageWrittenGrows(body, more, ps[i], pages[i], ci, kind, RowsIn(pages[..i]), plainEncoding);
    }
  }

  lemma PagesWrittenStep(body: seq<Byte>, payload: seq<Byte>, ps: seq<Page>, p: Page, pages: seq<Batch>, ci: nat, kind: Byte, plainEncoding: Byte)
    requires |ps| < |pages| && forall i :: 0 <= i < |pages| ==> ci < |pages[i].cells|
    requires PagesWritten(body, ps, pages, ci, kind, plainEncoding)
    requires Describes(p, pages[|ps|].cells[ci], pages[|ps|].rows, kind, RowsIn(pages[..|ps|]), plainEncoding)
    requires payload == PayloadOf(pages[|ps|].cells[ci], pages[|ps|].rows) && p.offset == |MAGIC| + |body| && p.length == |payload|
    ensures PagesWritten(body + payload, ps + [p], pages, ci, kind, plainEncoding)
  {
    hide Describes, Placed, PayloadOf, RowsIn;
    PagesWrittenGrow(body, payload, ps, pages, ci, kind, plainEncoding);
    PlacedAtEnd(body, p, payload);
  }

  // One page: its bytes and its directory entry; nothing when the bitmap does not fit its buffer.
  method WriteCell(c: Cell, rows: nat, kind: Byte, offset: nat, rowStart: nat, plainEncoding: Byte) returns (r: Option<(Page, seq<Byte>)>)
    requires CellShaped(c, rows)
    ensures r.Some? <==> CellWritable(c, rows)
    ensures r.Some? ==> Describes(r.value.0, c, rows, kind, rowStart, plainEncoding) && r.value.1 == PayloadOf(c, rows)
    ensures r.Some? ==> r.value.0.offset == offset && r.value.0.length == |r.value.1|
  {
    hide Nulls, Marshalled, TrueCount;
    var nulls := CellNulls(c, rows);
    var page := Page(offset, 0, rowStart, rows, nulls, kind, 0, 0, 0);
    if rows > 0 && nulls == rows {
      r := Some((page.(encoding := plainEncoding, flags := ALL_NULL), []));
    } else if nulls == 0 {
      r := Some((page.(length := |c.encoded|, encoding := c.encoding, flags := ALL_VALID), c.encoded));
    } else {
      NoBitmapNoNulls(c, rows);
      var words := c.valid.value;
      var validityBytes := new Byte[8 * WordsFor(rows)](_ => 0);
      if |words| != WordsFor(rows) {
        return None;
      }
      var n := MarshalLE(words, validityBytes);
      assert validityBytes[..n] == validityBytes[..];
      var payload := validityBytes[..] + c.plain;
      r := Some((page.(length := |payload|, encoding := plainEncoding), payload));
    }
  }

  lemma NoBitmapNoNulls(c: Cell, rows: nat)
    requires Nulls(c, rows) > 0
    ensures c.valid.Some?
  {
    hide TrueCount;
    AllTrue(rows);
  }

  method WriteColumn(pages: seq<Batch>, ci: nat, kind: Byte, plainEncoding: Byte, body: seq<Byte>)
    returns (r: Option<(seq<Page>, seq<Byte>)>)
    requires forall i :: 0 <= i < |pages| ==> ci < |pages[i].cells| && CellShaped(pages[i].cells[ci], pages[i].rows)
    ensures r.Some? <==> ColumnWritable(pages, ci)
    ensures r.Some? ==> body <= r.value.1 && ColumnWritten(r.value.1, r.value.0, pages, ci, kind, plainEncoding)
    ensures r.Some? ==> Tiles(r.value.0, |MAGIC| + |body|, |MAGIC| + |r.value.1|)
  {
    hide Describes, CellShaped, CellWritable, PagesWritten, PayloadOf, Tiles, RowsIn;
    var ps: seq<Page> := [];
    var out := body;
    var bodyOff := |MAGIC| + |body|;
    var rowStart := 0;
    TilesNothing(bodyOff);
    NothingWritten(body, pages, ci, kind, plainEncoding);
    for i := 0 to |pages|
      invariant |ps| == i && rowStart == RowsIn(pages[..i]) && bodyOff == |MAGIC| + |out| && body <= out
      invariant forall j :: 0 <= j < i ==> CellWritable(pages[j].cells[ci], pages[j].rows)
      invariant PagesWritten(out, ps, pages, ci, kind, plainEncoding)
      invariant Tiles(ps, |MAGIC| + |body|, bodyOff)
    {
      var cell := WriteCell(pages[i].cells[ci], pages[i].rows, kind, bodyOff, rowStart, plainEncoding);
      if cell.None? {
        return None;
      }
      var (page, payload) := cell.value;
      PagesWrittenStep(out, payload, ps, page, pages, ci, kind, plainEncoding);
      TilesStep(ps, page, |MAGIC| + |body|, bodyOff + |payload|);
      RowsInStep(pages, i);
      ps := ps + [page];
      out := out + payload;
      bodyOff := bodyOff + |payload|;
      rowStart := rowStart + pages[i].rows;
    }
    r := Some((ps, out));
  }

  lemma NothingWritten(body: seq<Byte>, pages: seq<Batch>, ci: nat, kind: Byte, plainEncoding: Byte)
    requires forall i :: 0 <= i < |pages| ==> ci < |pages[i].cells|
    ensures PagesWritten(body, [], pages, ci, kind, plainEncoding) && RowsIn(pages[..0]) == 0
  {
  }

  lemma TilesNothing(at: nat)
    ensures Tiles([], at, at)
  {
  }

  predicate Wide(pages: seq<Batch>, width: nat) {
    forall i :: 0 <= i < |pages| ==> |pages[i].cells| == width
  }

  predicate ColumnWritable(pages: seq<Batch>, ci: nat)
    requires forall i :: 0 <= i < |pages| ==> ci < |pages[i].cells|
  {
    forall i :: 0 <= i < |pages| ==> CellWritable(pages[i].cells[ci], pages[i].rows)
  }

  predicate Writable(pages: seq<Batch>, width: nat)
    requires Wide(pages, width)
  {
    forall ci :: 0 <= ci < width ==> ColumnWritable(pages, ci)
  }

  ghost predicate Written(body: seq<Byte>, dirs: seq<seq<Page>>, pages: seq<Batch>, kinds: seq<Byte>, plainEncoding: Byte)
    requires Wide(pages, |kinds|)
  {
    && |dirs| == |kinds|
    && forall ci :: 0 <= ci < |kinds| ==> ColumnWritten(body, dirs[ci], pages, ci, kinds[ci], plainEncoding)
  }

  function Flat(dirs: seq<seq<Page>>): (ps: seq<Page>) {
    if dirs == [] then [] else Flat(dirs[..|dirs| - 1]) + dirs[|dirs| - 1]
  }

  lemma {:induction false} TilesJoin(a: seq<Page>, b: seq<Page>, from: nat, mid: nat, to: nat)
    requires Tiles(a, from, mid) && Tiles(b, mid, to)
    ensures Tiles(a + b, from, to)
    decreases |b|
  {
    if b != [] {
      var k := |b| - 1;
      TilesJoin(a, b[..k], from, mid, b[k].offset);
      assert (a + b)[..|a + b| - 1] == a + b[..k];
    } else {
      assert a + b == a;
    }
  }

  method WritePayloads(pages: seq<Batch>, kinds: seq<Byte>, plainEncoding: Byte) returns (r: Option<(seq<seq<Page>>, seq<Byte>)>)
    requires Wide(pages, |kinds|) && forall i :: 0 <= i < |pages| ==> BatchShaped(pages[i], |kinds|)
    ensures r.Some? <==> Writable(pages, |kinds|)
    ensures r.Some? ==> Written(r.value.1, r.value.0, pages, kinds, plainEncoding)
    ensures r.Some? ==> Tiles(Flat(r.value.0), |MAGIC|, |MAGIC| + |r.value.1|)
  {
    hide CellShaped, ColumnWritable, PagesWritten, Tiles;
    var dirs: seq<seq<Page>> := [];
    var body: seq<Byte> := [];
    TilesNothing(|MAGIC|);
    for ci := 0 to |kinds|
      invariant |dirs| == ci
      invariant forall k :: 0 <= k < ci ==> ColumnWritable(pages, k)
      invariant forall k :: 0 <= k < ci ==> ColumnWritten(body, dirs[k], pages, k, kinds[k], plainEncoding)
      invariant Tiles(Flat(dirs), |MAGIC|, |MAGIC| + |body|)
    {
      var column := WriteColumn(pages, ci, kinds[ci], plainEncoding, body);
      if column.None? {
        return None;
      }
      var (ps, longer) := column.value;
      assert longer == body + longer[|body|..];
      forall k | 0 <= k < ci ensures ColumnWritten(longer, dirs[k], pages, k, kinds[k], plainEncoding) {
        PagesWrittenGrow(body, longer[|body|..], dirs[k], pages, k, kinds[k], plainEncoding);
      }
      TilesJoin(Flat(dirs), ps, |MAGIC|, |MAGIC| + |body|, |MAGIC| + |longer|);
      assert (dirs + [ps])[..ci] == dirs;
      dirs := dirs + [ps];
      body := longer;
    }
    r := Some((dirs, body));
  }

  // Consecutive payloads are disjoint.
  lemma {:induction false} TilesAreDisjoint(ps: seq<Page>, from: nat, to: nat, i: nat, j: nat)
    requires Tiles(ps, from, to) && i < j < |ps|
    ensures from <= ps[i].offset && ps[i].offset + ps[i].length <= ps[j].offset && ps[j].offset + ps[j].length <= to
    decreases |ps|
  {
    var k := |ps| - 1;
    TilesGrow(ps[..k], from, ps[k].offset);
    if j < k {
      TilesAreDisjoint(ps[..k], from, ps[k].offset, i, j);
    } else {
      TilesEnd(ps[..k], from, ps[k].offset, i);
    }
  }

  lemma {:induction false} TilesGrow(ps: seq<Page>, from: nat, to: nat)
    requires Tiles(ps, from, to)
    ensures from <= to
  {
    if ps != [] { TilesGrow(ps[..|ps| - 1], from, ps[|ps| - 1].offset); }
  }

  lemma {:induction false} TilesEnd(ps: seq<Page>, from: nat, to: nat, i: nat)
    requires Tiles(ps, from, to) && i < |ps|
    ensures from <= ps[i].offset && ps[i].offset + ps[i].length <= to
  {
    var k := |ps| - 1;
    TilesGrow(ps[..k], from, ps[k].offset);
    if i < k { TilesEnd(ps[..k], from, ps[k].offset, i); }
  }

  // ----- the reader's checks -----

  predicate HasAllValid(flags: Byte) { flags % 2 == 1 }
  predicate HasAllNull(flags: Byte) { flags / 2 % 2 == 1 }

  // The two lowest bits.
  lemma FlagBits(allValid: nat, allNull: nat, rest: nat)
    requires allValid < 2 && allNull < 2 && allValid + 2 * allNull + 4 * rest < 256
    ensures HasAllValid(allValid + 2 * allNull + 4 * rest) <==> allValid == 1
    ensures HasAllNull(allValid + 2 * allNull + 4 * rest) <==> allNull == 1
  {
  }

  predicate PageSound(p: Page, kind: Byte, bodyEnd: nat) {
    && p.flags < 16 && p.reserved == 0 && p.kind == kind && p.nullCount <= p.rows
    && (HasAllValid(p.flags) ==> !HasAllNull(p.flags) && p.nullCount == 0)
    && (HasAllNull(p.flags) ==> p.nullCount == p.rows)
    && (!HasAllValid(p.flags) && !HasAllNull(p.flags) ==> 0 < p.nullCount < p.rows)
    && p.offset + p.length <= bodyEnd && (p.length > 0 ==> |MAGIC| <= p.offset)
  }

  function RowSum(ps: seq<Page>): (n: nat) {
    if ps == [] then 0 else RowSum(ps[..|ps| - 1]) + ps[|ps| - 1].rows
  }

  function NullSum(ps: seq<Page>): (n: nat) {
    if ps == [] then 0 else NullSum(ps[..|ps| - 1]) + ps[|ps| - 1].nullCount
  }

  // Pages cover the rows of their column in order and without gaps, and the counts add up.
  predicate Sound(c: Column, bodyEnd: nat) {
    && c.marker <= MARKER_ALL_NULL && c.nullCount <= c.rows
    && (forall i :: 0 <= i < |c.pages| ==> PageSound(c.pages[i], c.kind, bodyEnd))
    && (forall i :: 0 <= i < |c.pages| ==> c.pages[i].rowStart == RowSum(c.pages[..i]))
    && RowSum(c.pages) <= MAX_ROWS && RowSum(c.pages) == c.rows && NullSum(c.pages) == c.nullCount
  }

  lemma SumsStep(ps: seq<Page>, i: nat)
    requires i < |ps|
    ensures RowSum(ps[..i + 1]) == RowSum(ps[..i]) + ps[i].rows
    ensures NullSum(ps[..i + 1]) == NullSum(ps[..i]) + ps[i].nullCount
  {
    assert ps[..i + 1][..i] == ps[..i];
  }

  lemma {:induction false} RowSumPrefix(ps: seq<Page>, i: nat)
    requires i <= |ps|
    ensures RowSum(ps[..i]) <= RowSum(ps)
  {
    if i < |ps| {
      RowSumPrefix(ps[..|ps| - 1], i);
      assert ps[..|ps| - 1][..i] == ps[..i];
    } else {
      assert ps[..i] == ps;
    }
  }

  lemma NoPages()
    ensures RowSum([]) == 0 && NullSum([]) == 0
  {
  }

  method ValidatePage(p: Page, kind: Byte, bodyEnd: nat) returns (ok: bool)
    ensures ok <==> PageSound(p, kind, bodyEnd)
  {
    var allValid := HasAllValid(p.flags);
    var allNull := HasAllNull(p.flags);
    if allValid && allNull { return false; }
    if p.flags / 16 != 0 { return false; }
    if p.reserved != 0 { return false; }
    if allValid && p.nullCount != 0 { return false; }
    if allNull && p.nullCount != p.rows { return false; }
    if !allValid && !allNull && (p.nullCount == 0 || p.nullCount == p.rows) { return false; }
    if p.nullCount > p.rows { return false; }
    if p.kind != kind { return false; }
    if p.offset < |MAGIC| && p.length > 0 { return false; }
    if p.offset > bodyEnd || p.length > bodyEnd - p.offset { return false; }
    ok := true;
  }

  method ValidateColumnDirectory(c: Column, bodyEnd: nat) returns (ok: bool)
    ensures ok <==> Sound(c, bodyEnd)
  {
    hide PageSound, RowSum, NullSum;
    if c.marker != MARKER_MIXED && c.marker != MARKER_ALL_VALID && c.marker != MARKER_ALL_NULL { return false; }
    if c.nullCount > c.rows { return false; }
    var rowSum, nullSum, nextRowStart := 0, 0, 0;
    NoPages();
    for i := 0 to |c.pages|
      invariant rowSum == nextRowStart == RowSum(c.pages[..i]) <= MAX_ROWS && nullSum == NullSum(c.pages[..i])
      invariant forall j :: 0 <= j < i ==> PageSound(c.pages[j], c.kind, bodyEnd)
      invariant forall j :: 0 <= j < i ==> c.pages[j].rowStart == RowSum(c.pages[..j])
    {
      var p := c.pages[i];
      SumsStep(c.pages, i);
      RowSumPrefix(c.pages, i + 1);
      var fine := ValidatePage(p, c.kind, bodyEnd);
      if !fine || p.rowStart != nextRowStart { return false; }
      rowSum := rowSum + p.rows;
      nullSum := nullSum + p.nullCount;
      var nextRow := p.rowStart + p.rows;
      if nextRow > MAX_ROWS { return false; }
      nextRowStart := nextRow;
    }
    assert c.pages[..|c.pages|] == c.pages;
    ok := rowSum == c.rows && nullSum == c.nullCount;
  }

  predicate InPage(p: Page, row: nat) {
    p.rowStart <= row < p.rowStart + p.rows
  }

  // In an accepted directory every row lies in exactly one page.
  lemma EveryRowHasOnePage(c: Column, bodyEnd: nat, row: nat)
    requires Sound(c, bodyEnd) && row < c.rows
    ensures exists i :: 0 <= i < |c.pages| && InPage(c.pages[i], row) && forall j :: 0 <= j < |c.pages| && InPage(c.pages[j], row) ==> j == i
  {
    hide PageSound;
    var ps := c.pages;
    assert ps[..|ps|] == ps;
    var i := FindPage(ps, |ps|, row);
    forall j | 0 <= j < |ps| && InPage(ps[j], row) ensures j == i {
      if i < j { PagesAscend(ps, i, j); }
      if j < i { PagesAscend(ps, j, i); }
    }
  }

  lemma PagesAscend(ps: seq<Page>, i: nat, j: nat)
    requires i < j < |ps| && forall k :: 0 <= k < |ps| ==> ps[k].rowStart == RowSum(ps[..k])
    ensures ps[i].rowStart + ps[i].rows <= ps[j].rowStart
  {
    SumsStep(ps, i);
    RowSumPrefix(ps[..j], i + 1);
    assert ps[..j][..i + 1] == ps[..i + 1];
  }

  lemma {:induction false} FindPage(ps: seq<Page>, n: nat, row: nat) returns (i: nat)
    requires 0 < n <= |ps| && row < RowSum(ps[..n])
    requires forall k :: 0 <= k < |ps| ==> ps[k].rowStart == RowSum(ps[..k])
    ensures i < n && InPage(ps[i], row)
    decreases n
  {
    hide RowSum, NullSum;
    NoPages();
    assert ps[..0] == [];
    SumsStep(ps, n - 1);
    if row < RowSum(ps[..n - 1]) { i := FindPage(ps, n - 1, row); } else { i := n - 1; }
  }

  // ----- every directory the writer makes is accepted -----

  lemma {:induction false} SumsAgree(body: seq<Byte>, ps: seq<Page>, pages: seq<Batch>, ci: nat, kind: Byte, plainEncoding: Byte, n: nat)
    requires n <= |pages| && forall i :: 0 <= i < |pages| ==> ci < |pages[i].cells|
    requires ColumnWritten(body, ps, pages, ci, kind, plainEncoding)
    ensures RowSum(ps[..n]) == RowsIn(pages[..n]) && NullSum(ps[..n]) == NullsOf(pages[..n], ci)
    decreases n
  {
    hide Nulls, AllNull, PayloadOf, Placed;
    if n > 0 {
      SumsAgree(body, ps, pages, ci, kind, plainEncoding, n - 1);
      SumsStep(ps, n - 1);
      RowsInStep(pages, n - 1);
      NullsOfStep(pages, ci, n - 1);
      assert PageWritten(body, ps[n - 1], pages[n - 1], ci, kind, RowsIn(pages[..n - 1]), plainEncoding);
    }
  }

  lemma WrittenPageIsSound(body: seq<Byte>, p: Page, b: Batch, ci: nat, kind: Byte, rowStart: nat, plainEncoding: Byte, bodyEnd: nat)
    requires ci < |b.cells| && PageWritten(body, p, b, ci, kind, rowStart, plainEncoding) && |MAGIC| + |body| <= bodyEnd
    ensures PageSound(p, kind, bodyEnd)
  {
    hide Nulls, PayloadOf;
  }

  // Whatever the batches, the reader accepts the column the writer recorded.
  lemma WriterOutputIsSound(body: seq<Byte>, c: Column, pages: seq<Batch>, ci: nat, s: Summary, plainEncoding: Byte, bodyEnd: nat)
    requires Shaped(pages) && ci < |pages[0].cells|
    requires forall i :: 0 <= i < |pages| ==> ci < |pages[i].cells|
    requires Summarises(s, pages, ci) && c.rows == s.rows && c.nullCount == s.nullCount && c.marker == s.marker
    requires ColumnWritten(body, c.pages, pages, ci, c.kind, plainEncoding) && |MAGIC| + |body| <= bodyEnd
    ensures Sound(c, bodyEnd)
  {
    hide PageWritten, PageSound, RowsIn, NullsOf, RowSum, NullSum, BatchShaped;
    forall i | 0 <= i < |c.pages| ensures PageSound(c.pages[i], c.kind, bodyEnd) && c.pages[i].rowStart == RowSum(c.pages[..i]) {
      assert PageWritten(body, c.pages[i], pages[i], ci, c.kind, RowsIn(pages[..i]), plainEncoding);
      WrittenPageIsSound(body, c.pages[i], pages[i], ci, c.kind, RowsIn(pages[..i]), plainEncoding, bodyEnd);
      WrittenRowStart(body, c.pages[i], pages[i], ci, c.kind, RowsIn(pages[..i]), plainEncoding);
      SumsAgree(body, c.pages, pages, ci, c.kind, plainEncoding, i);
    }
    SumsAgree(body, c.pages, pages, ci, c.kind, plainEncoding, |pages|);
    assert pages[..|pages|] == pages && c.pages[..|pages|] == c.pages;
  }

  lemma WrittenRowStart(body: seq<Byte>, p: Page, b: Batch, ci: nat, kind: Byte, rowStart: nat, plainEncoding: Byte)
    requires ci < |b.cells| && PageWritten(body, p, b, ci, kind, rowStart, plainEncoding)
    ensures p.rowStart == rowStart
  {
  }

  // ----- reading a page back -----

  datatype PageData = Missing(rows: nat) | Values(rows: nat, valid: Option<seq<Word>>, encoding: Byte, inner: seq<Byte>)

  function PageRead(file: seq<Byte>, p: Page): (r: Option<PageData>) {
    if HasAllNull(p.flags) then Some(Missing(p.rows))
    else if p.offset + p.length > |file| then None
    else
      var raw := file[p.offset..p.offset + p.length];
      if p.nullCount == 0 then Some(Values(p.rows, None, p.encoding, raw))
      else
        match Unmarshalled(raw, p.rows, p.nullCount)
        case None => None
        case Some((valid, used)) =>
          if 8 * WordsFor(p.rows) > |raw| then None else Some(Values(p.rows, valid, p.encoding, raw[8 * WordsFor(p.rows)..]))
  }

  method ReadPage(file: seq<Byte>, p: Page) returns (r: Option<PageData>)
    ensures r == PageRead(file, p)
  {
    hide Unmarshalled;
    if HasAllNull(p.flags) {
      return Some(Missing(p.rows));
    }
    if p.offset + p.length > |file| {
      return None;
    }
    var innerPayload := file[p.offset..p.offset + p.length];
    var validity: Option<seq<Word>> := None;
    if p.nullCount > 0 {
      var need := 8 * WordsFor(p.rows);
      if |innerPayload| < need {
        UnmarshalledShort(innerPayload, p.rows, p.nullCount);
        return None;
      }
      UnmarshalledPrefix(innerPayload, p.rows, p.nullCount);
      var v := UnmarshalValidity(innerPayload[..need], p.rows, p.nullCount);
      if v.None? {
        return None;
      }
      validity := v.value.0;
      innerPayload := innerPayload[need..];
    }
    r := Some(Values(p.rows, validity, p.encoding, innerPayload));
  }

  lemma UnmarshalledShort(b: seq<Byte>, rows: nat, nullCount: nat)
    requires |b| < 8 * WordsFor(rows) && nullCount > 0
    ensures Unmarshalled(b, rows, nullCount) == None
  {
  }

  lemma UnmarshalledPrefix(b: seq<Byte>, rows: nat, nullCount: nat)
    requires 8 * WordsFor(rows) <= |b|
    ensures Unmarshalled(b[..8 * WordsFor(rows)], rows, nullCount) == Unmarshalled(b, rows, nullCount)
  {
    assert b[..8 * WordsFor(rows)][..8 * WordsFor(rows)] == b[..8 * WordsFor(rows)];
  }

  // What a reader should see of a cell: which rows are null, and the bytes their values decode from.
  ghost predicate Restores(d: PageData, c: Cell, rows: nat, plainEncoding: Byte) {
    match d
    case Missing(n) => n == rows && AllNull(c, rows)
    case Values(n, valid, encoding, inner) =>
      && n == rows && ValidRows(valid, rows) == ValidRows(c.valid, rows)
      && (if Nulls(c, rows) == 0 then encoding == c.encoding && inner == c.encoded else encoding == plainEncoding && inner == c.plain)
  }

  // Every page of a written file reads back, whatever follows the body.
  lemma WrittenPageReads(body: seq<Byte>, after: seq<Byte>, p: Page, b: Batch, ci: nat, kind: Byte, rowStart: nat, plainEncoding: Byte)
    requires ci < |b.cells| && CellWritable(b.cells[ci], b.rows)
    requires PageWritten(body, p, b, ci, kind, rowStart, plainEncoding)
    ensures var r := PageRead(MAGIC + body + after, p); r.Some? && Restores(r.value, b.cells[ci], b.rows, plainEncoding)
  {
    hide Nulls, PayloadOf, Unmarshalled, WordsFor, ValidRows;
    var c := b.cells[ci];
    PayloadInFile(body, after, p, PayloadOf(c, b.rows));
    if AllNull(c, b.rows) {
    } else if Nulls(c, b.rows) == 0 {
      NoNullsAllValid(c, b.rows);
    } else {
      MixedPageReads(c, b.rows);
    }
  }

  lemma PayloadInFile(body: seq<Byte>, after: seq<Byte>, p: Page, payload: seq<Byte>)
    requires Placed(body, p, payload)
    ensures p.offset + p.length <= |MAGIC + body + after| && (MAGIC + body + after)[p.offset..p.offset + p.length] == payload
  {
    var at := p.offset - |MAGIC|;
    assert (MAGIC + body + after)[p.offset..p.offset + p.length] == body[at..at + p.length];
  }

  lemma NoNullsAllValid(c: Cell, rows: nat)
    requires Nulls(c, rows) == 0
    ensures ValidRows(None, rows) == ValidRows(c.valid, rows) && (!AllNull(c, rows) ==> PayloadOf(c, rows) == c.encoded)
  {
    hide TrueCount;
    AllCounted(ValidRows(c.valid, rows));
  }

  lemma MixedPageReads(c: Cell, rows: nat)
    requires 0 < Nulls(c, rows) && CellWritable(c, rows) && !AllNull(c, rows)
    ensures c.valid.Some? && |Marshalled(c.valid.value)| == 8 * WordsFor(rows)
    ensures PayloadOf(c, rows) == Marshalled(c.valid.value) + c.plain
    ensures var r := Unmarshalled(PayloadOf(c, rows), rows, Nulls(c, rows));
      r.Some? && r.value.0.Some? && ValidRows(r.value.0, rows) == ValidRows(c.valid, rows)
  {
    hide TrueCount, Unmarshalled, Marshalled;
    BitmapReadsBack(c.valid.value, rows, c.plain);
  }
}
