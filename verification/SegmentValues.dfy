// From the values of a column to a segment file and back: the page codecs, the
// page directory and the file layout together.
module SegmentValues {
  import opened Options
  import opened Bytes
  import opened BitWords
  import opened Selection
  import opened Validity
  import opened Directory
  import opened SegmentFile
  import opened Cascade
  import Footer
  import IntPages
  import SmallCodecs
  import TextCodecs
  import Pcodec
  import Fsst

  // ----- the encoding byte of a page entry -----

  function Wire(enc: Encoding): Byte {
    match enc
    case EncPlain => 1
    case EncDict => 2
    case EncConstant => 3
    case EncSequence => 4
    case EncFOR => 5
    case EncDelta => 6
    case EncFSST => 11
    case EncPcodec => 12
  }

  function Unwire(b: Byte): (enc: Option<Encoding>)
    ensures enc.Some? ==> Wire(enc.value) == b
  {
    if b == 1 then Some(EncPlain)
    else if b == 2 then Some(EncDict)
    else if b == 3 then Some(EncConstant)
    else if b == 4 then Some(EncSequence)
    else if b == 5 then Some(EncFOR)
    else if b == 6 then Some(EncDelta)
    else if b == 11 then Some(EncFSST)
    else if b == 12 then Some(EncPcodec)
    else None
  }

  // ----- a page of values, read from the file -----

  // The values of the valid rows.
  function Masked<T>(vals: seq<T>, valid: seq<bool>): (cells: seq<Option<T>>)
    requires |vals| == |valid|
    ensures |cells| == |vals|
  {
    seq(|vals|, i requires 0 <= i < |vals| => if valid[i] then Some(vals[i]) else None)
  }

  function Decoded<T>(d: Option<PageData>, decode: (Encoding, seq<Byte>, nat) -> Option<seq<T>>): (cells: Option<seq<Option<T>>>) {
    match d
    case None => None
    case Some(Missing(n)) => Some(seq(n, _ => None))
    case Some(Values(n, valid, e, inner)) =>
      match Unwire(e)
      case None => None
      case Some(enc) =>
        match decode(enc, inner, n)
        case None => None
        case Some(vals) => if |vals| == n then Some(Masked(vals, ValidRows(valid, n))) else None
  }

  function ReadInts(file: seq<Byte>, p: Footer.Page, k: IntPages.Kind): (cells: Option<seq<Option<int>>>) {
    Decoded(PageRead(file, p), (enc, b, n) => IntDecoded(enc, k, b, n))
  }

  function ReadTexts(file: seq<Byte>, p: Footer.Page): (cells: Option<seq<Option<seq<Byte>>>>) {
    Decoded(PageRead(file, p), (enc, b, n) => TextDecoded(enc, b, n))
  }

  // ----- the cells a writer makes of values -----

  // A page without nulls carries what the codecs chose, any other the plain bytes.
  ghost predicate HoldsInts(c: Cell, rows: nat, k: IntPages.Kind, vals: seq<int>, enc: Encoding) {
    && |vals| == rows && IntPages.Page(k, vals)
    && (Nulls(c, rows) == 0 ==> c.encoding == Wire(enc) && IntLossless(enc, k, vals, c.encoded))
    && c.plain == SmallCodecs.PlainPayload(k, vals)
  }

  ghost predicate HoldsTexts(c: Cell, rows: nat, texts: seq<seq<Byte>>, enc: Encoding) {
    && |texts| == rows && Encodable(texts)
    && (Nulls(c, rows) == 0 ==> c.encoding == Wire(enc) && TextLossless(enc, texts, c.encoded))
    && c.plain == Fsst.RowBytes(texts)
  }

  method IntCell(valid: Option<seq<Word>>, k: IntPages.Kind, vals: seq<int>, facts: Option<IntPages.Facts>) returns (c: Cell, enc: Encoding)
    requires IntPages.Page(k, vals) && (facts.Some? ==> vals != [] && IntPages.FactsOf(vals, facts.value))
    ensures c.valid == valid && HoldsInts(c, |vals|, k, vals, enc)
  {
    hide IntLossless, IntPages.FactsOf, Nulls;
    var payload: seq<Byte>;
    enc, payload := EncodeInts(k, vals, facts);
    c := Cell(valid, Wire(enc), payload, SmallCodecs.PlainPayload(k, vals));
  }

  method TextCell(valid: Option<seq<Word>>, texts: seq<seq<Byte>>, facts: Option<TextCodecs.Dict>) returns (c: Cell, enc: Encoding)
    requires Encodable(texts) && (facts.Some? ==> TextCodecs.IsDict(texts, facts))
    ensures c.valid == valid && HoldsTexts(c, |texts|, texts, enc)
  {
    hide TextLossless, TextCodecs.IsDict, Nulls;
    var payload: seq<Byte>;
    enc, payload := EncodeText(texts, facts);
    c := Cell(valid, Wire(enc), payload, Fsst.RowBytes(texts));
  }

  // Columns of one length, and of no more rows than a batch holds.
  method NewBatch(lens: seq<nat>, cells: seq<Cell>) returns (b: Option<Batch>)
    requires |lens| == |cells|
    ensures b.Some? <==> (forall i :: 0 <= i < |lens| ==> lens[i] == lens[0] <= STANDARD_BATCH_ROWS)
    ensures b.Some? ==> b.value.cells == cells && b.value.rows <= STANDARD_BATCH_ROWS
    ensures b.Some? ==> forall i :: 0 <= i < |lens| ==> b.value.rows == lens[i]
  {
    if |cells| == 0 {
      return Some(Batch(0, []));
    }
    if lens[0] > STANDARD_BATCH_ROWS {
      return None;
    }
    for i := 0 to |lens|
      invariant forall j :: 0 <= j < i ==> lens[j] == lens[0]
    {
      if lens[i] != lens[0] {
        return None;
      }
    }
    b := Some(Batch(lens[0], cells));
  }

  // ----- values come back -----

  lemma UnwireOfWire(enc: Encoding)
    ensures Unwire(Wire(enc)) == Some(enc)
  {
  }

  lemma AllNullMasks<T>(c: Cell, vals: seq<T>)
    requires AllNull(c, |vals|)
    ensures Masked(vals, ValidRows(c.valid, |vals|)) == seq(|vals|, _ => None) && Nulls(c, |vals|) > 0
  {
    NoneValid(ValidRows(c.valid, |vals|));
  }

  lemma {:induction false} NoneValid(valid: seq<bool>)
    requires NullsIn(valid) == |valid|
    ensures forall i :: 0 <= i < |valid| ==> !valid[i]
  {
    if valid != [] { NoneValid(valid[..|valid| - 1]); }
  }

  lemma MaskedExact<T>(a: seq<T>, b: seq<T>, valid: seq<bool>)
    requires |a| == |b| == |valid| && forall i :: 0 <= i < |valid| ==> valid[i]
    ensures Masked(a, valid) == Masked(b, valid) <==> a == b
  {
    if Masked(a, valid) == Masked(b, valid) {
      forall i | 0 <= i < |a| ensures a[i] == b[i] {
        assert Masked(a, valid)[i] == Masked(b, valid)[i];
      }
    }
  }

  lemma NoNulls(c: Cell, rows: nat)
    requires Nulls(c, rows) == 0
    ensures forall i :: 0 <= i < rows ==> ValidRows(c.valid, rows)[i]
  {
    hide TrueCount;
    AllCounted(ValidRows(c.valid, rows));
  }

  // What decoding gives of a page whose entry restores a cell.
  lemma DecodedExact<T>(d: PageData, c: Cell, vals: seq<T>, enc: Encoding, decode: (Encoding, seq<Byte>, nat) -> Option<seq<T>>)
    requires Restores(d, c, |vals|, Wire(EncPlain))
    requires Nulls(c, |vals|) == 0 ==> c.encoding == Wire(enc)
    requires decode(EncPlain, c.plain, |vals|) == Some(vals)
    ensures Decoded(Some(d), decode) == Some(Masked(vals, ValidRows(c.valid, |vals|)))
      <==> Nulls(c, |vals|) > 0 || decode(enc, c.encoded, |vals|) == Some(vals)
  {
    hide Nulls, ValidRows;
    UnwireOfWire(enc);
    UnwireOfWire(EncPlain);
    match d {
      case Missing(n) => AllNullMasks(c, vals);
      case Values(n, valid, e, inner) =>
        if Nulls(c, |vals|) == 0 {
          NoNulls(c, |vals|);
          var r := decode(enc, c.encoded, |vals|);
          if r.Some? && |r.value| == |vals| { MaskedExact(r.value, vals, ValidRows(c.valid, |vals|)); }
        }
    }
  }

  ghost predicate IntsReturn(file: seq<Byte>, p: Footer.Page, c: Cell, k: IntPages.Kind, vals: seq<int>) {
    ReadInts(file, p, k) == Some(Masked(vals, ValidRows(c.valid, |vals|)))
  }

  ghost predicate TextsReturn(file: seq<Byte>, p: Footer.Page, c: Cell, texts: seq<seq<Byte>>) {
    ReadTexts(file, p) == Some(Masked(texts, ValidRows(c.valid, |texts|)))
  }

  // An integer page comes back value by value and null by null; only a chunked
  // page of 2^16 chunks or more would not, and no batch is that long.
  lemma IntPageExact(file: seq<Byte>, ps: seq<Footer.Page>, i: nat, b: Batch, ci: nat, k: IntPages.Kind, vals: seq<int>, enc: Encoding)
    requires PageRestored(file, ps, i, b, ci, Wire(EncPlain)) && HoldsInts(b.cells[ci], b.rows, k, vals, enc)
    ensures IntsReturn(file, ps[i], b.cells[ci], k, vals)
      <==> Nulls(b.cells[ci], b.rows) > 0 || enc != EncPcodec || Pcodec.Chunks(b.rows) < U16_LIMIT
    ensures b.rows <= STANDARD_BATCH_ROWS ==> IntsReturn(file, ps[i], b.cells[ci], k, vals)
  {
    hide Nulls, ValidRows, PageRead, Restores, SmallCodecs.PlainPayload;
    SmallCodecs.PlainRoundTrip(k, vals);
    Widths();
    DecodedExact(PageRead(file, ps[i]).value, b.cells[ci], vals, enc, (e, bs, n) => IntDecoded(e, k, bs, n));
  }

  lemma TextPageReads(file: seq<Byte>, ps: seq<Footer.Page>, i: nat, b: Batch, ci: nat, texts: seq<seq<Byte>>, enc: Encoding)
    requires PageRestored(file, ps, i, b, ci, Wire(EncPlain)) && HoldsTexts(b.cells[ci], b.rows, texts, enc)
    ensures TextsReturn(file, ps[i], b.cells[ci], texts)
  {
    hide Nulls, ValidRows, PageRead, Restores, Fsst.RowBytes, TextDecoded;
    PlainTexts(texts);
    DecodedExact(PageRead(file, ps[i]).value, b.cells[ci], texts, enc, (e, bs, n) => TextDecoded(e, bs, n));
  }

  lemma PlainTexts(texts: seq<seq<Byte>>)
    requires Encodable(texts)
    ensures TextDecoded(EncPlain, Fsst.RowBytes(texts), |texts|) == Some(texts)
  {
    TextCodecs.PlainRoundTrip(texts);
  }

  // End to end: a segment written from batches is opened again, and each of its
  // pages, a batch each, gives back the values that went in.
  lemma SegmentValuesReturn(cols: seq<Footer.Column>, schema: seq<Schema>, body: seq<Byte>, pages: seq<Batch>, sidecar: seq<Byte>,
                            ci: nat, i: nat, k: IntPages.Kind, ints: seq<int>, texts: seq<seq<Byte>>, enc: Encoding)
    requires Shaped(pages) && Wide(pages, |schema|) && Writable(pages, |schema|) && |schema| == |pages[0].cells|
    requires SegmentWritten(cols, schema, body, pages, Wire(EncPlain))
    requires |schema| < U32_LIMIT && |pages| < U32_LIMIT && |MAGIC| + |body| < U64_LIMIT
    requires forall c :: 0 <= c < |schema| ==> SchemaFits(schema[c], |pages|) && |schema[c].labels| < U32_LIMIT
    requires |Footer.Encoded(cols)| <= MAX_INT32 && |sidecar| <= MAX_INT32
    requires ci < |schema| && i < |pages|
    ensures var file, b := FileBytes(body, Footer.Encoded(cols), sidecar), pages[i];
      && LayoutOf(file).Some? && LayoutOf(file).value.cols == cols
      && i < |cols[ci].pages| && ci < |b.cells|
      && (HoldsInts(b.cells[ci], b.rows, k, ints, enc) && b.rows <= STANDARD_BATCH_ROWS ==>
            IntsReturn(file, cols[ci].pages[i], b.cells[ci], k, ints))
      && (HoldsTexts(b.cells[ci], b.rows, texts, enc) ==> TextsReturn(file, cols[ci].pages[i], b.cells[ci], texts))
  {
    hide Footer.Encoded, FileBytes, LayoutOf, Shaped, Writable, IntsReturn, TextsReturn, HoldsInts, HoldsTexts, PageRead, Restores, SchemaFits, Records;
    SegmentRoundTrip(cols, schema, body, pages, Wire(EncPlain), sidecar);
    var file := FileBytes(body, Footer.Encoded(cols), sidecar);
    assert PageRestored(file, cols[ci].pages, i, pages[i], ci, Wire(EncPlain));
    if HoldsInts(pages[i].cells[ci], pages[i].rows, k, ints, enc) {
      IntPageExact(file, cols[ci].pages, i, pages[i], ci, k, ints, enc);
    }
    if HoldsTexts(pages[i].cells[ci], pages[i].rows, texts, enc) {
      TextPageReads(file, cols[ci].pages, i, pages[i], ci, texts, enc);
    }
  }
}
