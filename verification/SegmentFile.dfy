// A whole segment file: magic, page payloads, footer, sidecar and suffix;
// written from batches and opened again.
module SegmentFile {
  import opened Options
  import opened Bytes
  import opened Validity
  import opened Footer
  import FooterWire
  import opened Directory

  const SUFFIX: nat := 24
  const MAX_INT32: nat := 0x7fff_ffff

  // ----- the file and its layout -----

  function SuffixBytes(footerLen: nat, sidecarLen: nat): (b: seq<Byte>)
    ensures |b| == SUFFIX
  {
    LE(sidecarLen, 8) + LE(footerLen, 8) + MAGIC
  }

  function FileBytes(body: seq<Byte>, footer: seq<Byte>, sidecar: seq<Byte>): (b: seq<Byte>) {
    MAGIC + body + footer + sidecar + SuffixBytes(|footer|, |sidecar|)
  }

  datatype Layout = Layout(cols: seq<Column>, bodyEnd: nat, sidecarStart: nat, sidecarLen: nat)

  function LayoutOf(file: seq<Byte>): (r: Option<Layout>) {
    var size := |file|;
    if size < |MAGIC| + SUFFIX then None
    else
      var suffix := file[size - SUFFIX..];
      var sidecarLen, footerLen := FromLE(suffix[0..8]), FromLE(suffix[8..16]);
      var sidecarStart := size - SUFFIX - sidecarLen;
      var footerStart := sidecarStart - footerLen;
      if suffix[16..24] != MAGIC || footerLen > MAX_INT32 || sidecarLen > MAX_INT32 then None
      else if footerStart < |MAGIC| || file[..|MAGIC|] != MAGIC then None
      else
        match Parsed(file[footerStart..footerStart + footerLen])
        case None => None
        case Some(cols) => Some(Layout(cols, footerStart, sidecarStart, sidecarLen))
  }

  method ReadLayout(file: seq<Byte>) returns (r: Option<Layout>)
    ensures r == LayoutOf(file)
  {
    hide FromLE, Parsed;
    var size := |file|;
    if size < |MAGIC| + SUFFIX { return None; }
    var suffix := file[size - SUFFIX..];
    var sidecarLen := FromLE(suffix[0..8]);
    var footerLen := FromLE(suffix[8..16]);
    if suffix[16..24] != MAGIC { return None; }
    if footerLen > MAX_INT32 { return None; }
    if sidecarLen > MAX_INT32 { return None; }
    var sidecarStart := size - SUFFIX - sidecarLen;
    var footerStart := sidecarStart - footerLen;
    if footerStart < |MAGIC| { return None; }
    if file[..|MAGIC|] != MAGIC { return None; }
    var cols := FooterWire.ParseFooter(file[footerStart..footerStart + footerLen]);
    if cols.None? { return None; }
    r := Some(Layout(cols.value, footerStart, sidecarStart, sidecarLen));
  }

  lemma SuffixReads(footerLen: nat, sidecarLen: nat)
    requires footerLen < U64_LIMIT && sidecarLen < U64_LIMIT
    ensures var s := SuffixBytes(footerLen, sidecarLen); FromLE(s[0..8]) == sidecarLen && FromLE(s[8..16]) == footerLen && s[16..24] == MAGIC
  {
    Widths();
    FromLEOfLE(footerLen, 8);
    FromLEOfLE(sidecarLen, 8);
    var s := SuffixBytes(footerLen, sidecarLen);
    assert s[0..8] == LE(sidecarLen, 8) && s[8..16] == LE(footerLen, 8);
  }

  lemma Cuts(body: seq<Byte>, footer: seq<Byte>, sidecar: seq<Byte>)
    ensures var f := FileBytes(body, footer, sidecar);
      && |f| == |MAGIC| + |body| + |footer| + |sidecar| + SUFFIX
      && f[|f| - SUFFIX..] == SuffixBytes(|footer|, |sidecar|) && f[..|MAGIC|] == MAGIC
      && f[|MAGIC| + |body|..|MAGIC| + |body| + |footer|] == footer
  {
    hide SuffixBytes;
    var head := MAGIC + body;
    var f := FileBytes(body, footer, sidecar);
    assert f == head + (footer + (sidecar + SuffixBytes(|footer|, |sidecar|)));
    assert f[|head|..|head| + |footer|] == footer;
  }

  // A written file opens to the columns it was given exactly when its footer and
  // its sidecar both fit a signed 32-bit length; the writer does not check that.
  lemma OpensIff(body: seq<Byte>, cols: seq<Column>, sidecar: seq<Byte>)
    requires Fits(cols) && |Encoded(cols)| < U64_LIMIT && |sidecar| < U64_LIMIT
    ensures LayoutOf(FileBytes(body, Encoded(cols), sidecar)) ==
      if |Encoded(cols)| <= MAX_INT32 && |sidecar| <= MAX_INT32
      then Some(Layout(cols, |MAGIC| + |body|, |MAGIC| + |body| + |Encoded(cols)|, |sidecar|))
      else None
  {
    hide Encoded, Parsed, FromLE, SuffixBytes, FileBytes, Fits;
    Cuts(body, Encoded(cols), sidecar);
    SuffixReads(|Encoded(cols)|, |sidecar|);
    RoundTrip(cols);
  }

  // ----- from batches to a file -----

  // What is known of a column before its rows: the statistics are computed elsewhere.
  datatype Schema = Schema(name: seq<Byte>, kind: Byte, labels: seq<seq<Byte>>, stats: seq<Byte>, pageStats: seq<seq<Byte>>)

  predicate SchemaFits(s: Schema, pageCount: nat) {
    && |s.name| < U16_LIMIT && (forall i :: 0 <= i < |s.labels| ==> |s.labels[i]| < U16_LIMIT)
    && |s.stats| == STATS && |s.pageStats| == pageCount && forall i :: 0 <= i < pageCount ==> |s.pageStats[i]| == STATS
  }

  function Kinds(schema: seq<Schema>): (kinds: seq<Byte>)
    ensures |kinds| == |schema|
  {
    seq(|schema|, i requires 0 <= i < |schema| => schema[i].kind)
  }

  // A column carries its schema, its summary and a page for every batch.
  ghost predicate Records(c: Column, s: Schema, body: seq<Byte>, pages: seq<Batch>, ci: nat, plainEncoding: Byte)
    requires forall i :: 0 <= i < |pages| ==> ci < |pages[i].cells|
  {
    && c.name == s.name && c.kind == s.kind && c.labels == s.labels && c.stats == s.stats && c.pageStats == s.pageStats
    && Summarises(Summary(c.rows, c.nullCount, c.marker), pages, ci)
    && ColumnWritten(body, c.pages, pages, ci, c.kind, plainEncoding)
  }

  ghost predicate SegmentWritten(cols: seq<Column>, schema: seq<Schema>, body: seq<Byte>, pages: seq<Batch>, plainEncoding: Byte)
    requires Wide(pages, |schema|)
  {
    |cols| == |schema| && forall ci :: 0 <= ci < |cols| ==> Records(cols[ci], schema[ci], body, pages, ci, plainEncoding)
  }

  // Refused only for input of the wrong shape, or a null bitmap longer than its page.
  method WriteSegment(pages: seq<Batch>, schema: seq<Schema>, sidecar: seq<Byte>, plainEncoding: Byte)
    returns (r: Option<(seq<Column>, seq<Byte>, seq<Byte>)>)
    requires pages != [] ==> |schema| == |pages[0].cells|
    requires forall ci :: 0 <= ci < |schema| ==> SchemaFits(schema[ci], |pages|)
    ensures r.Some? <==> Shaped(pages) && Wide(pages, |schema|) && Writable(pages, |schema|)
    ensures r.Some? ==> SegmentWritten(r.value.0, schema, r.value.1, pages, plainEncoding)
    ensures r.Some? ==> r.value.2 == FileBytes(r.value.1, Encoded(r.value.0), sidecar)
  {
    hide Encoded, FileBytes, Summarises, ColumnWritten, Writable, SuffixBytes, CellShaped, RowsIn;
    var prepared := PrepareColumns(pages);
    if prepared.None? {
      return None;
    }
    var sums := prepared.value;
    assert forall i :: 0 <= i < |pages| ==> BatchShaped(pages[i], |schema|);
    var payloads := WritePayloads(pages, Kinds(schema), plainEncoding);
    if payloads.None? {
      return None;
    }
    var (dirs, body) := payloads.value;
    var cols: seq<Column> := [];
    for ci := 0 to |schema|
      invariant |cols| == ci
      invariant forall k :: 0 <= k < ci ==> Records(cols[k], schema[k], body, pages, k, plainEncoding) && StringsFit(cols[k])
    {
      var s := schema[ci];
      cols := cols + [Column(s.name, s.kind, s.labels, sums[ci].rows, sums[ci].nullCount, sums[ci].marker, s.stats, dirs[ci], s.pageStats)];
      assert sums[ci] == Summary(sums[ci].rows, sums[ci].nullCount, sums[ci].marker);
      assert SchemaFits(s, |pages|);
    }
    var footer := FooterWire.EncodeFooter(cols);
    r := Some((cols, body, FileBytes(body, footer, sidecar)));
  }

  // Field widths the format can hold, given that the file itself has 64-bit offsets.
  lemma RecordedColumnFits(c: Column, s: Schema, body: seq<Byte>, pages: seq<Batch>, ci: nat, plainEncoding: Byte)
    requires Shaped(pages) && |pages| < U32_LIMIT && |s.labels| < U32_LIMIT && |MAGIC| + |body| < U64_LIMIT
    requires forall i :: 0 <= i < |pages| ==> ci < |pages[i].cells|
    requires SchemaFits(s, |pages|) && Records(c, s, body, pages, ci, plainEncoding)
    ensures ColumnFits(c)
  {
    hide PageWritten, RowsIn, BatchShaped, NullsOf, PageFits;
    forall i | 0 <= i < |c.pages| ensures PageFits(c.pages[i]) {
      RowsInPrefix(pages, i + 1);
      RowsInStep(pages, i);
      assert PageWritten(body, c.pages[i], pages[i], ci, c.kind, RowsIn(pages[..i]), plainEncoding);
      WrittenPageFits(body, c.pages[i], pages[i], ci, c.kind, RowsIn(pages[..i]), plainEncoding);
    }
  }

  lemma WrittenPageFits(body: seq<Byte>, p: Page, b: Batch, ci: nat, kind: Byte, rowStart: nat, plainEncoding: Byte)
    requires ci < |b.cells| && PageWritten(body, p, b, ci, kind, rowStart, plainEncoding)
    requires |MAGIC| + |body| < U64_LIMIT && rowStart + b.rows < U32_LIMIT
    ensures PageFits(p)
  {
    hide Nulls, PayloadOf;
  }

  // Opening a written segment gives back its columns, the reader accepts every
  // directory, and every page reads back with its nulls and its payload.
  lemma SegmentRoundTrip(cols: seq<Column>, schema: seq<Schema>, body: seq<Byte>, pages: seq<Batch>, plainEncoding: Byte, sidecar: seq<Byte>)
    requires Shaped(pages) && Wide(pages, |schema|) && Writable(pages, |schema|) && |schema| == |pages[0].cells|
    requires SegmentWritten(cols, schema, body, pages, plainEncoding)
    requires |schema| < U32_LIMIT && |pages| < U32_LIMIT && |MAGIC| + |body| < U64_LIMIT
    requires forall ci :: 0 <= ci < |schema| ==> SchemaFits(schema[ci], |pages|) && |schema[ci].labels| < U32_LIMIT
    requires |Encoded(cols)| <= MAX_INT32 && |sidecar| <= MAX_INT32
    ensures LayoutOf(FileBytes(body, Encoded(cols), sidecar))
      == Some(Layout(cols, |MAGIC| + |body|, |MAGIC| + |body| + |Encoded(cols)|, |sidecar|))
    ensures forall ci :: 0 <= ci < |cols| ==> Sound(cols[ci], |MAGIC| + |body|)
    ensures forall ci, i :: 0 <= ci < |cols| && 0 <= i < |pages| ==>
      PageRestored(FileBytes(body, Encoded(cols), sidecar), cols[ci].pages, i, pages[i], ci, plainEncoding)
  {
    hide Encoded, FileBytes, LayoutOf, Sound, Shaped, Writable, Records, ColumnFits, PageRestored, SchemaFits, SuffixBytes;
    forall ci | 0 <= ci < |cols| ensures ColumnFits(cols[ci]) && Sound(cols[ci], |MAGIC| + |body|) {
      assert Records(cols[ci], schema[ci], body, pages, ci, plainEncoding);
      RecordedColumnFits(cols[ci], schema[ci], body, pages, ci, plainEncoding);
      RecordedColumnIsSound(cols[ci], schema[ci], body, pages, ci, plainEncoding);
    }
    OpensIff(body, cols, sidecar);
    forall ci, i | 0 <= ci < |cols| && 0 <= i < |pages|
      ensures PageRestored(FileBytes(body, Encoded(cols), sidecar), cols[ci].pages, i, pages[i], ci, plainEncoding)
    {
      assert Records(cols[ci], schema[ci], body, pages, ci, plainEncoding);
      RecordedPageReads(cols[ci], schema[ci], body, Encoded(cols), sidecar, pages, ci, i, plainEncoding);
    }
  }

  ghost predicate PageRestored(file: seq<Byte>, ps: seq<Page>, i: nat, b: Batch, ci: nat, plainEncoding: Byte) {
    && i < |ps| && ci < |b.cells|
    && PageRead(file, ps[i]).Some? && Restores(PageRead(file, ps[i]).value, b.cells[ci], b.rows, plainEncoding)
  }

  lemma RecordedColumnIsSound(c: Column, s: Schema, body: seq<Byte>, pages: seq<Batch>, ci: nat, plainEncoding: Byte)
    requires Shaped(pages) && ci < |pages[0].cells|
    requires forall i :: 0 <= i < |pages| ==> ci < |pages[i].cells|
    requires Records(c, s, body, pages, ci, plainEncoding)
    ensures Sound(c, |MAGIC| + |body|)
  {
    hide Sound, Shaped, Summarises, ColumnWritten;
    WriterOutputIsSound(body, c, pages, ci, Summary(c.rows, c.nullCount, c.marker), plainEncoding, |MAGIC| + |body|);
  }

  lemma RecordedPageReads(c: Column, s: Schema, body: seq<Byte>, footer: seq<Byte>, sidecar: seq<Byte>, pages: seq<Batch>, ci: nat, i: nat, plainEncoding: Byte)
    requires i < |pages| && Wide(pages, |pages[i].cells|) && ci < |pages[i].cells| && Writable(pages, |pages[i].cells|)
    requires Records(c, s, body, pages, ci, plainEncoding)
    ensures PageRestored(FileBytes(body, footer, sidecar), c.pages, i, pages[i], ci, plainEncoding)
  {
    hide PageWritten, Summarises, CellWritable, PageRead, Restores, SuffixBytes, RowsIn;
    var after := footer + sidecar + SuffixBytes(|footer|, |sidecar|);
    assert ColumnWritable(pages, ci);
    assert PageWritten(body, c.pages[i], pages[i], ci, c.kind, RowsIn(pages[..i]), plainEncoding);
    WrittenPageReads(body, after, c.pages[i], pages[i], ci, c.kind, RowsIn(pages[..i]), plainEncoding);
    assert FileBytes(body, footer, sidecar) == MAGIC + body + after;
  }
}
