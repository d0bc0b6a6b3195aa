// Choosing an encoding for a page: shortcuts the page facts allow, otherwise a
// trial of every candidate that keeps the smallest payload.
module Cascade {
  import opened Options
  import opened Bytes
  import opened Bitpack
  import opened IntPages
  import IntCodecs
  import SmallCodecs
  import DeltaCodec
  import Pcodec
  import TextCodecs
  import Fsst
  import FsstTraining

  datatype Encoding = EncPlain | EncConstant | EncSequence | EncFOR | EncDelta | EncPcodec | EncDict | EncFSST

  // ----- integer pages -----

  function IntCandidates(k: Kind): (cs: seq<Encoding>)
    ensures |cs| > 0 && cs[|cs| - 1] == EncPlain
    ensures forall i :: 0 <= i < |cs| - 1 ==> cs[i] in {EncConstant, EncSequence, EncFOR, EncDelta, EncPcodec}
  {
    [EncConstant] + (if Width(k) == 8 then [EncSequence, EncFOR, EncDelta, EncPcodec] else [EncFOR, EncDelta, EncPcodec]) + [EncPlain]
  }

  function IntDecoded(enc: Encoding, k: Kind, b: seq<Byte>, rows: nat): Option<seq<int>> {
    match enc
    case EncPlain => SmallCodecs.PlainDecoded(k, b, rows)
    case EncConstant => SmallCodecs.ConstantDecoded(k, b, rows)
    case EncSequence => SmallCodecs.SequenceDecoded(k, b, rows)
    case EncFOR => IntCodecs.ForDecoded(k, b, rows)
    case EncDelta => DeltaCodec.Decoded(k, b, rows)
    case EncPcodec => Pcodec.Decoded(k, b, rows)
    case _ => None
  }

  function PlainSize(k: Kind, rows: nat): nat {
    rows * Width(k)
  }

  // The payload decodes to the page; a chunked one as long as its chunk count fits 16 bits.
  ghost predicate IntLossless(enc: Encoding, k: Kind, vals: seq<int>, b: seq<Byte>) {
    IntDecoded(enc, k, b, |vals|) == Some(vals) <==> enc != EncPcodec || Pcodec.Chunks(|vals|) < U16_LIMIT
  }

  // No page of a batch has that many chunks.
  lemma BatchIsLossless(enc: Encoding, k: Kind, vals: seq<int>, b: seq<Byte>)
    requires IntLossless(enc, k, vals, b)
    ensures |vals| <= STANDARD_BATCH_ROWS ==> IntDecoded(enc, k, b, |vals|) == Some(vals)
  {
    hide IntDecoded;
    Widths();
  }

  // The payload the codec stands for, when the codec applies to the page.
  ghost predicate Encodes(enc: Encoding, k: Kind, vals: seq<int>, b: seq<Byte>) {
    match enc
    case EncPlain => b == SmallCodecs.PlainPayload(k, vals)
    case EncConstant => SmallCodecs.IsConstantPage(k, vals, b)
    case EncSequence => SmallCodecs.IsSequencePage(k, vals, b)
    case EncFOR => IntCodecs.IsForPage(k, vals, b)
    case EncDelta => DeltaCodec.IsDeltaPage(k, vals, b)
    case EncPcodec => Pcodec.IsChunkedPage(k, vals, b)
    case _ => false
  }

  lemma EncodingIsUnique(enc: Encoding, k: Kind, vals: seq<int>, a: seq<Byte>, b: seq<Byte>)
    requires Encodes(enc, k, vals, a) && Encodes(enc, k, vals, b)
    ensures |a| == |b|
  {
    hide IntPages.ForParamsOf, Packed, PackedSize, LE, Pcodec.IsChunkedPage, IntCodecs.ForPayload, DeltaCodec.Payload;
    match enc {
      case EncFOR =>
        var p :| ForParamsOf(vals, Some(p)) && Int64s(vals) && IsInt64(p.base) && p.width < 8 * Width(k) && a == IntCodecs.ForPayload(vals, p);
        IntCodecs.ForPageSize(k, vals, a, p);
        IntCodecs.ForPageSize(k, vals, b, p);
      case EncDelta =>
        var p :| |vals| >= 2 && Int64s(vals) && ForParamsOf(Steps(vals), Some(p)) && IsInt64(p.base) && p.width < 8 * Width(k) && a == DeltaCodec.Payload(vals, p);
        DeltaCodec.DeltaPageSize(k, vals, a, p);
        DeltaCodec.DeltaPageSize(k, vals, b, p);
      case EncPcodec =>
        Pcodec.ChunkedPagesAgree(k, vals, a, b);
      case _ =>
    }
  }

  // No encoding that applies to the page is shorter.
  ghost predicate Shortest(k: Kind, vals: seq<int>, size: nat) {
    forall e, b :: Encodes(e, k, vals, b) ==> size <= |b|
  }

  // The order in which the codecs are tried.
  function Turn(e: Encoding): nat {
    match e
    case EncConstant => 0
    case EncSequence => 1
    case EncFOR => 2
    case EncDelta => 3
    case EncPcodec => 4
    case EncDict => 5
    case EncFSST => 6
    case EncPlain => 7
  }

  // Of the shortest encodings, the one tried last.
  ghost predicate LastShortest(enc: Encoding, k: Kind, vals: seq<int>, size: nat) {
    forall e, b :: Encodes(e, k, vals, b) ==> size < |b| || (size == |b| && Turn(e) <= Turn(enc))
  }

  lemma CandidatesByTurn(k: Kind)
    ensures forall i, j :: 0 <= i < j < |IntCandidates(k)| ==> Turn(IntCandidates(k)[i]) < Turn(IntCandidates(k)[j])
  {
  }

  lemma AppliesIsCandidate(e: Encoding, k: Kind, vals: seq<int>, b: seq<Byte>)
    requires Encodes(e, k, vals, b)
    ensures e in IntCandidates(k)
  {
    hide SmallCodecs.IsConstantPage, IntCodecs.IsForPage, DeltaCodec.IsDeltaPage, Pcodec.IsChunkedPage;
    var cs := IntCandidates(k);
    if e == EncSequence { assert cs[1] == EncSequence; } else { assert cs[0] == EncConstant && cs[|cs| - 2] == EncPcodec && cs[|cs| - 3] == EncDelta && cs[|cs| - 4] == EncFOR; }
  }

  // One codec: a lossless payload within the limit, or a skip when it does not
  // apply or is too long.
  method TryInts(enc: Encoding, k: Kind, vals: seq<int>, facts: Option<Facts>, maxLen: nat) returns (r: Option<seq<Byte>>)
    requires Page(k, vals) && (facts.Some? ==> vals != [] && FactsOf(vals, facts.value))
    requires enc in {EncPlain, EncConstant, EncSequence, EncFOR, EncDelta, EncPcodec}
    ensures r.Some? ==> Encodes(enc, k, vals, r.value) && IntLossless(enc, k, vals, r.value) && (maxLen == 0 || |r.value| <= maxLen)
    ensures r.None? ==> forall b :: Encodes(enc, k, vals, b) ==> 0 < maxLen < |b|
  {
    hide IntCodecs.IsForPage, DeltaCodec.IsDeltaPage, SmallCodecs.IsSequencePage, SmallCodecs.IsConstantPage, Pcodec.IsChunkedPage, FactsOf;
    hide IntCodecs.ForDecoded, DeltaCodec.Decoded, SmallCodecs.SequenceDecoded, SmallCodecs.ConstantDecoded, Pcodec.Decoded, SmallCodecs.PlainDecoded;
    PlainIsCandidate(k, vals);
    match enc {
      case EncConstant =>
        r := SmallCodecs.ConstantEncode(k, vals, facts, maxLen);
        if r.Some? { SmallCodecs.ConstantRoundTrip(k, vals, r.value); }
      case EncSequence =>
        r := SmallCodecs.SequenceEncode(k, vals, facts, maxLen);
        if r.Some? { SmallCodecs.SequenceRoundTrip(k, vals, r.value); }
      case EncFOR =>
        r := IntCodecs.ForEncode(k, vals, facts, maxLen);
        if r.Some? { IntCodecs.ForRoundTrip(k, vals, r.value); }
      case EncDelta =>
        r := DeltaCodec.Encode(k, vals, facts, maxLen);
        if r.Some? { DeltaCodec.RoundTrip(k, vals, r.value); }
      case EncPcodec =>
        r := Pcodec.Encode(k, vals, maxLen);
        if r.Some? { Pcodec.RoundTripIff(k, vals, r.value); }
      case EncPlain =>
        if IntCodecs.TooLong(PlainSize(k, |vals|), maxLen) {
          return None;
        }
        r := Some(SmallCodecs.PlainPayload(k, vals));
        SmallCodecs.PlainRoundTrip(k, vals);
    }
  }

  // The encoding the facts force, if any: constant first, then sequence.
  function DominantInt(k: Kind, facts: Option<Facts>): (enc: Option<Encoding>) {
    if facts.None? then None
    else if facts.value.constantOK then Some(EncConstant)
    else if Width(k) == 8 && facts.value.sequenceOK then Some(EncSequence)
    else None
  }

  // A shortcut always applies to the page and never writes more than plain does.
  method EncodeDominant(enc: Encoding, k: Kind, vals: seq<int>, facts: Option<Facts>) returns (payload: seq<Byte>)
    requires Page(k, vals) && facts.Some? && vals != [] && FactsOf(vals, facts.value) && DominantInt(k, facts) == Some(enc)
    ensures IntLossless(enc, k, vals, payload) && Encodes(enc, k, vals, payload) && Shortest(k, vals, |payload|)
  {
    hide SmallCodecs.ConstantDecoded, SmallCodecs.SequenceDecoded, SmallCodecs.Stored, LE;
    if enc == EncConstant {
      var c := SmallCodecs.ConstantEncode(k, vals, facts, 0);
      SmallCodecs.ConstantRoundTrip(k, vals, c.value);
      forall e, b | Encodes(e, k, vals, b) ensures |c.value| <= |b| {
        if e != EncConstant && e != EncPlain { MoreThanEight(e, k, vals, b); }
        OneFits(1, |vals|, Width(k));
      }
      return c.value;
    }
    var s := SmallCodecs.SequenceEncode(k, vals, facts, 0);
    SmallCodecs.SequenceRoundTrip(k, vals, s.value);
    forall e, b | Encodes(e, k, vals, b) ensures |s.value| <= |b| {
      if e != EncConstant && e != EncPlain { MoreThanEight(e, k, vals, b); }
      OneFits(2, |vals|, Width(k));
    }
    payload := s.value;
  }

  lemma OneFits(n: nat, rows: nat, width: nat)
    requires n <= rows
    ensures n * width <= rows * width
  {
    Monotone(n, rows, width);
  }

  // The sizes a shortcut has to beat.
  lemma MoreThanEight(e: Encoding, k: Kind, vals: seq<int>, b: seq<Byte>)
    requires Page(k, vals) && vals != [] && e in {EncSequence, EncFOR, EncDelta, EncPcodec} && Encodes(e, k, vals, b)
    ensures |b| >= 16
  {
    hide IntPages.ForParamsOf, Packed, LE, Pcodec.IsChunkedPage, IntCodecs.ForPayload, DeltaCodec.Payload, PackedSize;
    match e {
      case EncFOR =>
        var p :| ForParamsOf(vals, Some(p)) && Int64s(vals) && IsInt64(p.base) && p.width < 8 * Width(k) && b == IntCodecs.ForPayload(vals, p);
        IntCodecs.ForPageSize(k, vals, b, p);
        IntCodecs.ParamsFacts(vals, p);
        OneBlock(|vals|, p.width);
      case EncDelta =>
        var p :| |vals| >= 2 && Int64s(vals) && ForParamsOf(Steps(vals), Some(p)) && IsInt64(p.base) && p.width < 8 * Width(k) && b == DeltaCodec.Payload(vals, p);
        DeltaCodec.DeltaPageSize(k, vals, b, p);
      case EncPcodec =>
        Pcodec.ChunkedPageSize(k, vals, b);
      case EncSequence =>
        SmallCodecs.SequenceRoundTrip(k, vals, b);
    }
  }

  lemma OneBlock(rows: nat, width: nat)
    requires rows > 0 && width > 0
    ensures PackedSize(rows, width) >= 128
  {
    Monotone(1, Blocks(rows), width);
  }

  // Lossless, and as short as any candidate makes it, through shortcut and trial alike.
  method EncodeInts(k: Kind, vals: seq<int>, facts: Option<Facts>) returns (enc: Encoding, payload: seq<Byte>)
    requires Page(k, vals) && (facts.Some? ==> vals != [] && FactsOf(vals, facts.value))
    ensures Encodes(enc, k, vals, payload) && IntLossless(enc, k, vals, payload)
    ensures |vals| <= STANDARD_BATCH_ROWS ==> IntDecoded(enc, k, payload, |vals|) == Some(vals)
    ensures Shortest(k, vals, |payload|) && |payload| <= PlainSize(k, |vals|)
    ensures facts.Some? && AllEqual(vals) ==> enc == EncConstant
    ensures facts.Some? && !AllEqual(vals) && Width(k) == 8 && IsSequence(vals) ==> enc == EncSequence
    ensures facts.None? || (!AllEqual(vals) && !(Width(k) == 8 && IsSequence(vals))) ==> LastShortest(enc, k, vals, |payload|)
  {
    hide IntLossless, FactsOf, Encodes, Beaten, IntCandidates, AllEqual, IsSequence, Shortest, LastShortest;
    PlainIsCandidate(k, vals);
    if facts.Some? { FactsDecide(vals, facts.value); }
    var dominant := DominantInt(k, facts);
    if dominant.Some? {
      payload := EncodeDominant(dominant.value, k, vals, facts);
      BatchIsLossless(dominant.value, k, vals, payload);
      NotLonger(EncPlain, k, vals, SmallCodecs.PlainPayload(k, vals), |payload|);
      return dominant.value, payload;
    }
    var plainBound := PlainSize(k, |vals|);
    var haveBest := false;
    enc, payload := EncPlain, [];
    var cs := IntCandidates(k);
    ghost var at := 0;
    NothingBeaten(cs, k, vals, |payload|, plainBound);
    for i := 0 to |cs|
      invariant haveBest ==> Encodes(enc, k, vals, payload) && IntLossless(enc, k, vals, payload)
      invariant Beaten(cs, i, at, k, vals, haveBest, |payload|, plainBound)
      invariant haveBest ==> at < |cs| && cs[at] == enc
      invariant i == |cs| ==> haveBest
    {
      var maxLen := if haveBest then |payload| else plainBound;
      var p := TryInts(cs[i], k, vals, facts, maxLen);
      BeatenStep(cs, i, at, k, vals, haveBest, |payload|, plainBound, p);
      if p.None? {
        continue;
      }
      if !haveBest || |p.value| <= |payload| {
        enc, payload, haveBest, at := cs[i], p.value, true, i;
      }
    }
    BeatenAll(k, at, vals, |payload|, plainBound);
    NotLonger(EncPlain, k, vals, SmallCodecs.PlainPayload(k, vals), |payload|);
    BatchIsLossless(enc, k, vals, payload);
  }

  lemma FactsDecide(vals: seq<int>, f: Facts)
    requires vals != [] && FactsOf(vals, f)
    ensures (f.constantOK <==> AllEqual(vals)) && (f.sequenceOK <==> IsSequence(vals))
  {
  }

  lemma NotLonger(e: Encoding, k: Kind, vals: seq<int>, b: seq<Byte>, size: nat)
    requires Shortest(k, vals, size) && Encodes(e, k, vals, b)
    ensures size <= |b|
  {
  }

  // The best so far, found at position at, is as short as any of the first i
  // candidates and the last of its length; while there is none, they are all too long.
  ghost predicate Beaten(cs: seq<Encoding>, i: nat, at: nat, k: Kind, vals: seq<int>, have: bool, size: nat, bound: nat)
    requires i <= |cs|
  {
    forall j, b :: 0 <= j < i && Encodes(cs[j], k, vals, b) ==>
      if have then size < |b| || (size == |b| && j <= at) else IntCodecs.TooLong(|b|, bound)
  }

  lemma NothingBeaten(cs: seq<Encoding>, k: Kind, vals: seq<int>, size: nat, bound: nat)
    ensures Beaten(cs, 0, 0, k, vals, false, size, bound)
  {
  }

  lemma BeatenStep(cs: seq<Encoding>, i: nat, at: nat, k: Kind, vals: seq<int>, have: bool, size: nat, bound: nat, p: Option<seq<Byte>>)
    requires i < |cs| && Beaten(cs, i, at, k, vals, have, size, bound)
    requires p.Some? ==> Encodes(cs[i], k, vals, p.value) && !IntCodecs.TooLong(|p.value|, if have then size else bound)
    requires p.None? ==> forall b :: Encodes(cs[i], k, vals, b) ==> IntCodecs.TooLong(|b|, if have then size else bound)
    ensures var better := p.Some? && (!have || |p.value| <= size);
      Beaten(cs, i + 1, if better then i else at, k, vals, have || p.Some?, if better then |p.value| else size, bound)
  {
    hide Encodes;
    forall b | p.Some? && Encodes(cs[i], k, vals, b) ensures |b| == |p.value| { EncodingIsUnique(cs[i], k, vals, b, p.value); }
  }

  lemma BeatenAll(k: Kind, at: nat, vals: seq<int>, size: nat, bound: nat)
    requires at < |IntCandidates(k)| && Beaten(IntCandidates(k), |IntCandidates(k)|, at, k, vals, true, size, bound)
    ensures Shortest(k, vals, size) && LastShortest(IntCandidates(k)[at], k, vals, size)
  {
    hide Encodes, IntCandidates, Turn;
    var cs := IntCandidates(k);
    CandidatesByTurn(k);
    forall e, b | Encodes(e, k, vals, b) ensures size < |b| || (size == |b| && Turn(e) <= Turn(cs[at])) {
      AppliesIsCandidate(e, k, vals, b);
      var j :| 0 <= j < |cs| && cs[j] == e;
    }
  }

  lemma PlainIsCandidate(k: Kind, vals: seq<int>)
    ensures Encodes(EncPlain, k, vals, SmallCodecs.PlainPayload(k, vals)) && |SmallCodecs.PlainPayload(k, vals)| == PlainSize(k, |vals|)
    ensures EncPlain in IntCandidates(k)
    ensures forall e :: e in IntCandidates(k) ==> e in {EncPlain, EncConstant, EncSequence, EncFOR, EncDelta, EncPcodec}
  {
    assert IntCandidates(k)[|IntCandidates(k)| - 1] == EncPlain;
  }

  // ----- text pages -----

  function TextDecoded(enc: Encoding, b: seq<Byte>, rows: nat): Option<seq<seq<Byte>>> {
    match enc
    case EncPlain => TextCodecs.PlainDecoded(b, rows)
    case EncConstant => TextCodecs.ConstantDecoded(b, rows)
    case EncDict => TextCodecs.DictDecoded(b, rows)
    case EncFSST => Fsst.DecodedPage(b, rows)
    case _ => None
  }

  // Lengths that stay within 32 bits even when every byte is escaped.
  predicate Encodable(rows: seq<seq<Byte>>) {
    |rows| < U32_LIMIT && forall i :: 0 <= i < |rows| ==> 2 * |rows[i]| < U32_LIMIT
  }

  ghost predicate TextLossless(enc: Encoding, rows: seq<seq<Byte>>, b: seq<Byte>) {
    TextDecoded(enc, b, |rows|) == Some(rows)
  }

  function Joined(rows: seq<seq<Byte>>): (b: seq<Byte>) {
    if rows == [] then [] else Joined(rows[..|rows| - 1]) + rows[|rows| - 1]
  }

  // Skips a page only when it has no rows or its sample repeats nothing.
  method EncodeFsst(rows: seq<seq<Byte>>) returns (r: Option<seq<Byte>>)
    requires Encodable(rows)
    ensures r.Some? ==> TextLossless(EncFSST, rows, r.value)
    ensures r.None? <==> rows == [] || FsstTraining.NothingRepeats(Joined(rows))
  {
    hide Fsst.DecodedPage, Fsst.Page, Fsst.EncodeAll;
    if |rows| == 0 {
      return None;
    }
    var raw: seq<Byte> := [];
    for i := 0 to |rows|
      invariant raw == Joined(rows[..i])
    {
      assert rows[..i + 1][..i] == rows[..i];
      raw := raw + rows[i];
    }
    assert rows[..|rows|] == rows;
    if |raw| == 0 {
      FsstTraining.NothingToRepeat();
      return None;
    }
    var symbols := FsstTraining.Train(raw);
    if |symbols| == 0 {
      return None;
    }
    assert forall i :: 0 <= i < |symbols| ==> symbols[i] in symbols;
    var page := Fsst.EncodePage(symbols, rows);
    Fsst.PageRoundTrip(symbols, rows);
    r := Some(page);
  }

  // The payload the codec stands for. What FSST writes depends on its training,
  // so its size is compared only in the trial itself.
  ghost predicate EncodesText(enc: Encoding, rows: seq<seq<Byte>>, b: seq<Byte>) {
    match enc
    case EncPlain => b == Fsst.RowBytes(rows)
    case EncConstant => TextCodecs.AllEqual(rows) && b == TextCodecs.ConstantPayload(rows)
    case EncDict => TextCodecs.IsDictPage(rows, b)
    case _ => false
  }

  ghost predicate ShortestText(rows: seq<seq<Byte>>, size: nat) {
    forall e, b :: EncodesText(e, rows, b) ==> size <= |b|
  }

  ghost predicate LastShortestText(enc: Encoding, rows: seq<seq<Byte>>, size: nat) {
    forall e, b :: EncodesText(e, rows, b) ==> size < |b| || (size == |b| && Turn(e) <= Turn(enc))
  }

  method TryText(enc: Encoding, rows: seq<seq<Byte>>, facts: Option<TextCodecs.Dict>, maxLen: nat) returns (r: Option<seq<Byte>>)
    requires Encodable(rows) && (facts.Some? ==> TextCodecs.IsDict(rows, facts))
    requires enc in {EncPlain, EncConstant, EncDict, EncFSST}
    ensures r.Some? ==> TextLossless(enc, rows, r.value) && (enc != EncFSST ==> EncodesText(enc, rows, r.value))
    ensures r.None? ==> forall b :: EncodesText(enc, rows, b) ==> maxLen > 0 && |b| > maxLen
    ensures r.None? && enc == EncDict ==> forall b :: !EncodesText(enc, rows, b)
  {
    hide TextCodecs.ConstantPayload;
    TextCodecs.PlainSizeExact(rows);
    hide TextCodecs.IsDict, TextCodecs.IsDictPage, TextCodecs.PlainDecoded, TextCodecs.ConstantDecoded, TextCodecs.DictDecoded, Fsst.DecodedPage, Fsst.RowBytes;
    match enc {
      case EncConstant =>
        r := TextCodecs.ConstantEncode(rows, maxLen);
        if r.Some? { TextCodecs.ConstantRoundTrip(rows); }
      case EncDict =>
        r := TextCodecs.DictEncode(rows, facts);
        if r.Some? { TextCodecs.DictRoundTrip(rows, r.value); } else { TextCodecs.NoDictPage(rows); }
      case EncFSST =>
        r := EncodeFsst(rows);
      case EncPlain =>
        if maxLen > 0 && TextCodecs.PlainSize(rows) > maxLen {
          return None;
        }
        var out := Fsst.AppendRows([], rows);
        assert out == Fsst.RowBytes(rows);
        TextCodecs.PlainRoundTrip(rows);
        TextCodecs.PlainSizeExact(rows);
        r := Some(out);
    }
  }

  // A small dictionary with more than one entry is taken without a trial.
  predicate DictDominates(rows: nat, facts: Option<TextCodecs.Dict>) {
    facts.Some? && |facts.value.entries| > 1 && |facts.value.indices| == rows && 2 + facts.value.bytes + rows <= 4 * rows
  }

  method EncodeText(rows: seq<seq<Byte>>, facts: Option<TextCodecs.Dict>) returns (enc: Encoding, payload: seq<Byte>)
    requires Encodable(rows) && (facts.Some? ==> TextCodecs.IsDict(rows, facts))
    ensures TextLossless(enc, rows, payload) && (enc != EncFSST ==> EncodesText(enc, rows, payload))
    ensures ShortestText(rows, |payload|) && |payload| <= TextCodecs.PlainSize(rows)
    ensures var shortcut := facts.Some? && |facts.value.entries| > 1 && 2 + TextCodecs.PlainSize(facts.value.entries) + |rows| <= 4 * |rows|;
      if shortcut then enc == EncDict else LastShortestText(enc, rows, |payload|)
  {
    hide TextLossless, TextCodecs.IsDict, TextCodecs.PlainSize, Encodable, EncodesText, BeatenText, LastShortestText;
    PlainTextIsCandidate(rows);
    if facts.Some? { DictMeasures(rows, facts.value); }
    if DictDominates(|rows|, facts) {
      payload := EncodeDominantDict(rows, facts);
      return EncDict, payload;
    }
    var plainBound := TextCodecs.PlainSize(rows);
    var haveBest := false;
    enc, payload := EncPlain, [];
    var cs := [EncConstant, EncDict, EncFSST, EncPlain];
    ghost var at := 0;
    NothingBeatenText(cs, rows, |payload|, plainBound);
    for i := 0 to |cs|
      invariant haveBest ==> TextLossless(enc, rows, payload) && (enc != EncFSST ==> EncodesText(enc, rows, payload))
      invariant BeatenText(cs, i, at, rows, haveBest, |payload|)
      invariant haveBest ==> at < |cs| && cs[at] == enc
      invariant i == |cs| ==> haveBest
    {
      var maxLen := if haveBest then |payload| else plainBound;
      var p := TryText(cs[i], rows, facts, maxLen);
      if !haveBest { NoneTooLong(cs[i], rows, p); }
      BeatenTextStep(cs, i, at, rows, haveBest, |payload|, p);
      if p.None? {
        continue;
      }
      if !haveBest || |p.value| <= |payload| {
        enc, payload, haveBest, at := cs[i], p.value, true, i;
      }
    }
    BeatenTextAll(cs, at, rows, |payload|);
  }

  // No candidate tried so far is shorter than the best, nor as short and later; while there is none, none of them applies.
  ghost predicate BeatenText(cs: seq<Encoding>, i: nat, at: nat, rows: seq<seq<Byte>>, have: bool, size: nat)
    requires i <= |cs|
  {
    forall j :: 0 <= j < i ==> Covers(cs[j], rows, have, size, j <= at)
  }

  ghost predicate Covers(e: Encoding, rows: seq<seq<Byte>>, have: bool, size: nat, earlier: bool) {
    forall b :: EncodesText(e, rows, b) ==> have && (size < |b| || (size == |b| && earlier))
  }

  lemma NothingBeatenText(cs: seq<Encoding>, rows: seq<seq<Byte>>, size: nat, bound: nat)
    ensures BeatenText(cs, 0, 0, rows, false, size)
  {
  }

  lemma DictMeasures(rows: seq<seq<Byte>>, d: TextCodecs.Dict)
    requires TextCodecs.IsDict(rows, Some(d))
    ensures d.bytes == TextCodecs.PlainSize(d.entries) && |d.indices| == |rows|
  {
  }

  // Within the plain size, a codec that applies is never skipped.
  lemma NoneTooLong(enc: Encoding, rows: seq<seq<Byte>>, p: Option<seq<Byte>>)
    requires p.None? ==> forall b :: EncodesText(enc, rows, b) ==> TextCodecs.PlainSize(rows) > 0 && |b| > TextCodecs.PlainSize(rows)
    requires enc in {EncPlain, EncConstant, EncDict, EncFSST}
    requires enc == EncDict && p.None? ==> forall b :: !EncodesText(enc, rows, b)
    ensures p.None? ==> forall b :: !EncodesText(enc, rows, b)
  {
    hide TextCodecs.IsDictPage, Fsst.RowBytes, LE, TextCodecs.ConstantPayload;
    TextCodecs.PlainSizeExact(rows);
    TextCodecs.ConstantIsShort(rows);
    forall b ensures p.None? ==> !EncodesText(enc, rows, b) {
    }
  }

  lemma BeatenTextStep(cs: seq<Encoding>, i: nat, at: nat, rows: seq<seq<Byte>>, have: bool, size: nat, p: Option<seq<Byte>>)
    requires i < |cs| && BeatenText(cs, i, at, rows, have, size)
    requires p.Some? && cs[i] != EncFSST ==> EncodesText(cs[i], rows, p.value)
    requires p.None? ==> forall b :: EncodesText(cs[i], rows, b) ==> have && |b| > size
    ensures var better := p.Some? && (!have || |p.value| <= size);
      BeatenText(cs, i + 1, if better then i else at, rows, have || p.Some?, if better then |p.value| else size)
  {
    var better := p.Some? && (!have || |p.value| <= size);
    var size', at' := if better then |p.value| else size, if better then i else at;
    forall j | 0 <= j < i ensures Covers(cs[j], rows, have || p.Some?, size', j <= at') {
      StillCovers(cs[j], rows, have, size, j <= at, p, j <= at');
    }
    NowCovers(cs[i], rows, have, size, p, i <= at');
  }

  lemma StillCovers(e: Encoding, rows: seq<seq<Byte>>, have: bool, size: nat, earlier: bool, p: Option<seq<Byte>>, earlier': bool)
    requires Covers(e, rows, have, size, earlier)
    requires var better := p.Some? && (!have || |p.value| <= size); if better then earlier' else earlier' == earlier
    ensures var better := p.Some? && (!have || |p.value| <= size);
      Covers(e, rows, have || p.Some?, if better then |p.value| else size, earlier')
  {
  }

  lemma NowCovers(e: Encoding, rows: seq<seq<Byte>>, have: bool, size: nat, p: Option<seq<Byte>>, earlier: bool)
    requires p.Some? && e != EncFSST ==> EncodesText(e, rows, p.value)
    requires p.None? ==> forall b :: EncodesText(e, rows, b) ==> have && |b| > size
    requires p.Some? && (!have || |p.value| <= size) ==> earlier
    ensures var better := p.Some? && (!have || |p.value| <= size);
      Covers(e, rows, have || p.Some?, if better then |p.value| else size, earlier)
  {
    forall b | p.Some? && EncodesText(e, rows, b) ensures |b| == |p.value| {
      OnlyThree(e, rows, b);
      TextEncodingIsUnique(e, rows, b, p.value);
    }
  }

  lemma OnlyThree(e: Encoding, rows: seq<seq<Byte>>, b: seq<Byte>)
    requires EncodesText(e, rows, b)
    ensures e in {EncConstant, EncDict, EncPlain}
  {
  }

  lemma TextEncodingIsUnique(enc: Encoding, rows: seq<seq<Byte>>, a: seq<Byte>, b: seq<Byte>)
    requires EncodesText(enc, rows, a) && EncodesText(enc, rows, b)
    ensures |a| == |b|
  {
    hide TextCodecs.IsDictPage, Fsst.RowBytes;
    if enc == EncDict { TextCodecs.DictPagesAgree(rows, a, b); }
  }

  lemma BeatenTextAll(cs: seq<Encoding>, at: nat, rows: seq<seq<Byte>>, size: nat)
    requires cs == [EncConstant, EncDict, EncFSST, EncPlain] && at < |cs| && BeatenText(cs, |cs|, at, rows, true, size)
    ensures ShortestText(rows, size) && LastShortestText(cs[at], rows, size)
  {
    hide EncodesText;
    forall e, b | EncodesText(e, rows, b) ensures size < |b| || (size == |b| && Turn(e) <= Turn(cs[at])) {
      OnlyThree(e, rows, b);
      assert cs[0] == EncConstant && cs[1] == EncDict && cs[3] == EncPlain;
      var j :| 0 <= j < |cs| && cs[j] == e;
      assert Covers(cs[j], rows, true, size, j <= at);
      assert j <= at ==> Turn(cs[j]) <= Turn(cs[at]);
    }
  }

  lemma PlainTextIsCandidate(rows: seq<seq<Byte>>)
    ensures EncodesText(EncPlain, rows, Fsst.RowBytes(rows)) && |Fsst.RowBytes(rows)| == TextCodecs.PlainSize(rows)
  {
    TextCodecs.PlainSizeExact(rows);
  }

  method EncodeDominantDict(rows: seq<seq<Byte>>, facts: Option<TextCodecs.Dict>) returns (payload: seq<Byte>)
    requires Encodable(rows) && facts.Some? && TextCodecs.IsDict(rows, facts) && DictDominates(|rows|, facts)
    ensures TextLossless(EncDict, rows, payload) && EncodesText(EncDict, rows, payload) && ShortestText(rows, |payload|)
  {
    hide TextCodecs.IsDictPage, TextCodecs.DictDecoded, TextCodecs.Entries, TextCodecs.PlainSize, TextCodecs.ParseDict, Fsst.RowBytes;
    var p := TextCodecs.DictEncode(rows, facts);
    DictFits(rows, facts.value);
    payload := p.value;
    TextCodecs.DictRoundTrip(rows, payload);
    TextCodecs.DictParses(rows, payload);
    TextCodecs.PlainSizeExact(rows);
    TextCodecs.EntriesAre(rows);
    forall e, b | EncodesText(e, rows, b) ensures |payload| <= |b| {
      if e == EncDict { TextCodecs.DictPagesAgree(rows, payload, b); }
      if e == EncConstant { TextCodecs.EqualRowsOneEntry(rows); }
    }
  }

  lemma DictFits(rows: seq<seq<Byte>>, d: TextCodecs.Dict)
    requires TextCodecs.IsDict(rows, Some(d)) && |d.entries| > 1
    ensures rows != [] && |TextCodecs.Entries(rows)| <= TextCodecs.DICT_MAX && d.bytes == TextCodecs.PlainSize(TextCodecs.Entries(rows))
  {
  }
}
