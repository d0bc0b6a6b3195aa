// The statistics of an integer page: what the writer stores, what the reader
// takes from it, and that pruning on it is sound for every written page.
module PageStatistics {
  import opened Options
  import opened Bytes
  import opened BitWords
  import opened Selection
  import opened Validity
  import opened IntPages
  import P = Predicates
  import K = KeyScan
  import SortOrder
  import D = Directory
  import Footer
  import EncodedEval
  import V = SegmentValues

  const STATS_SIZE: nat := 16

  // ----- the bytes -----

  // 16- and 32-bit kinds store their extremes as int32, the others as int64; enums have none.
  predicate HasStats(k: Kind) { k != Enum32 }

  function StatsWidth(k: Kind): nat {
    if Width(k) == 8 then 8 else 4
  }

  function ToU32(v: int): (u: nat)
    requires -0x8000_0000 <= v < 0x8000_0000
    ensures u < U32_LIMIT
  {
    if v < 0 then v + U32_LIMIT else v
  }

  function ToI32(u: nat): (v: int)
    requires u < U32_LIMIT
  {
    if u >= 0x8000_0000 then u - U32_LIMIT else u
  }

  function Zeros(n: nat): (z: seq<Byte>)
    ensures |z| == n && forall i :: 0 <= i < n ==> z[i] == 0
  {
    seq(n, _ => 0)
  }

  function ExtremeBytes(k: Kind, v: int): (b: seq<Byte>)
    requires HasStats(k) && InKind(k, v)
    ensures |b| == StatsWidth(k)
  {
    if StatsWidth(k) == 8 then LE(ToU64(v), 8) else LE(ToU32(v), 4)
  }

  function StatsBytes(k: Kind, min: int, max: int): (b: seq<Byte>)
    requires HasStats(k) && InKind(k, min) && InKind(k, max)
    ensures |b| == STATS_SIZE
  {
    ExtremeBytes(k, min) + ExtremeBytes(k, max) + Zeros(STATS_SIZE - 2 * StatsWidth(k))
  }

  function ExtremeAt(k: Kind, b: seq<Byte>, pos: nat): (v: int)
    requires pos + StatsWidth(k) <= |b|
  {
    Widths();
    if StatsWidth(k) == 8 then ToI64(FromLE(b[pos..pos + 8])) else ToI32(FromLE(b[pos..pos + 4]))
  }

  lemma ExtremeReads(k: Kind, v: int, b: seq<Byte>, pos: nat)
    requires HasStats(k) && InKind(k, v) && pos + StatsWidth(k) <= |b| && b[pos..pos + StatsWidth(k)] == ExtremeBytes(k, v)
    ensures ExtremeAt(k, b, pos) == v
  {
    Widths();
    if StatsWidth(k) == 8 { FromLEOfLE(ToU64(v), 8); } else { FromLEOfLE(ToU32(v), 4); }
  }

  // The extremes come back from the bytes.
  lemma StatsRead(k: Kind, min: int, max: int)
    requires HasStats(k) && InKind(k, min) && InKind(k, max)
    ensures var b := StatsBytes(k, min, max); ExtremeAt(k, b, 0) == min && ExtremeAt(k, b, StatsWidth(k)) == max
  {
    hide ExtremeAt, ExtremeBytes;
    var b, w := StatsBytes(k, min, max), StatsWidth(k);
    assert b[0..w] == ExtremeBytes(k, min) && b[w..w + w] == ExtremeBytes(k, max);
    ExtremeReads(k, min, b, 0);
    ExtremeReads(k, max, b, w);
  }

  // ----- the writer -----

  // What is stored of a page whose present values are p.
  ghost predicate IsStats(k: Kind, p: seq<int>, b: seq<Byte>) {
    && |b| == STATS_SIZE
    && (if k != Enum32 && p != [] then
          exists min, max :: IsMin(min, p) && IsMax(max, p) && InKind(k, min) && InKind(k, max) && b == StatsBytes(k, min, max)
        else forall i :: 0 <= i < |b| ==> b[i] == 0)
  }

  // The scan over the valid rows, used for pages with nulls.
  method MarshalPageStats(k: Kind, vals: seq<int>, valid: seq<bool>) returns (b: seq<Byte>)
    requires |valid| == |vals| && Page(k, vals)
    ensures IsStats(k, Present(vals, valid), b)
  {
    if !HasStats(k) {
      return Zeros(STATS_SIZE);
    }
    var some, min, max := false, 0, 0;
    assert vals[..0] == [] && valid[..0] == [];
    for i := 0 to |vals|
      invariant some == (Present(vals[..i], valid[..i]) != [])
      invariant some ==> IsMin(min, Present(vals[..i], valid[..i])) && IsMax(max, Present(vals[..i], valid[..i]))
      invariant some ==> InKind(k, min) && InKind(k, max)
    {
      PresentStep(vals, valid, i);
      if valid[i] {
        if !some {
          OneValue(vals[i]);
          some, min, max := true, vals[i], vals[i];
        } else {
          AppendedExtremes(Present(vals[..i], valid[..i]), vals[i], min, max);
          if vals[i] < min { min := vals[i]; }
          if vals[i] > max { max := vals[i]; }
        }
      }
    }
    assert vals[..|vals|] == vals && valid[..|valid|] == valid;
    b := if some then StatsBytes(k, min, max) else Zeros(STATS_SIZE);
  }

  lemma {:induction false} PresentInKind(k: Kind, vals: seq<int>, valid: seq<bool>)
    requires |valid| == |vals| && Page(k, vals)
    ensures forall x :: x in Present(vals, valid) ==> InKind(k, x)
  {
    if vals != [] { PresentInKind(k, vals[..|vals| - 1], valid[..|vals| - 1]); }
  }

  // For a page without nulls the extremes are taken from the facts of the page analyzer.
  method MarshalFromFacts(k: Kind, vals: seq<int>) returns (b: seq<Byte>)
    requires Page(k, vals)
    ensures IsStats(k, vals, b)
  {
    var valid := seq(|vals|, _ => true);
    PageIsInt64s(k, vals);
    AllPresent(vals, valid);
    PresentInKind(k, vals, valid);
    var facts := AnalyzeIntPage(vals, valid);
    if facts.None? || !HasStats(k) {
      b := MarshalPageStats(k, vals, valid);
      return;
    }
    b := StatsBytes(k, facts.value.min, facts.value.max);
  }

  // A page of nulls alone leaves its statistics zero.
  method WriteStats(k: Kind, vals: seq<int>, valid: Option<seq<Word>>) returns (b: seq<Byte>)
    requires Page(k, vals) && (valid.Some? ==> WordsFor(|vals|) <= |valid.value|)
    ensures IsStats(k, Present(vals, ValidRows(valid, |vals|)), b)
  {
    hide StatsBytes, ValidRows;
    var bits := ValidRows(valid, |vals|);
    var nulls := NullCount(valid, |vals|);
    if |vals| > 0 && nulls == |vals| {
      NothingPresent(vals, bits);
      return Zeros(STATS_SIZE);
    }
    if nulls == 0 {
      AllCounted(bits);
      AllPresent(vals, bits);
      b := MarshalFromFacts(k, vals);
    } else {
      b := MarshalPageStats(k, vals, bits);
    }
  }

  lemma {:induction false} NothingPresent(vals: seq<int>, valid: seq<bool>)
    requires |valid| == |vals| && NullsIn(valid) == |valid|
    ensures Present(vals, valid) == []
  {
    if vals != [] {
      NothingPresent(vals[..|vals| - 1], valid[..|vals| - 1]);
    }
  }

  // ----- the reader -----

  // The extremes of a page, when its kind stores any and it has a value.
  method PageMinMax(k: Kind, page: Footer.Page, b: seq<Byte>) returns (r: Option<(int, int)>)
    requires |b| == STATS_SIZE
    ensures r == MinMaxOf(k, page, b)
  {
    if page.rows == 0 || D.HasAllNull(page.flags) || !HasStats(k) {
      return None;
    }
    r := Some((ExtremeAt(k, b, 0), ExtremeAt(k, b, StatsWidth(k))));
  }

  function MinMaxOf(k: Kind, page: Footer.Page, b: seq<Byte>): (r: Option<(int, int)>)
    requires |b| == STATS_SIZE
  {
    if page.rows == 0 || D.HasAllNull(page.flags) || !HasStats(k) then None
    else Some((ExtremeAt(k, b, 0), ExtremeAt(k, b, StatsWidth(k))))
  }

  function StatsSeen(k: Kind, page: Footer.Page, b: seq<Byte>): (s: P.PageStats)
    requires |b| == STATS_SIZE
    ensures P.HasMinMax(s) <==> MinMaxOf(k, page, b).Some?
  {
    var m := MinMaxOf(k, page, b);
    P.PageStats(page.rows, page.nullCount, D.HasAllNull(page.flags), HasStats(k),
                if m.Some? then m.value.0 else 0, if m.Some? then m.value.1 else 0, None)
  }

  // An integer column of one written page: its values, its directory entry and its statistics.
  datatype WrittenPage = WrittenPage(k: Kind, vals: seq<int>, cell: D.Cell, page: Footer.Page, stats: seq<Byte>)

  ghost predicate Written(w: WrittenPage, rows: nat) {
    && |w.vals| == rows && Page(w.k, w.vals) && |w.stats| == STATS_SIZE
    && (exists kind, rowStart, plain :: D.Describes(w.page, w.cell, rows, kind, rowStart, plain))
    && IsStats(w.k, Present(w.vals, ValidRows(w.cell.valid, rows)), w.stats)
  }

  function ColumnOf(w: WrittenPage): P.Column {
    P.Ints(V.Masked(w.vals, ValidRows(w.cell.valid, |w.vals|)))
  }

  lemma {:induction false} PresentHas(vals: seq<int>, valid: seq<bool>, r: nat)
    requires |valid| == |vals| && r < |vals| && valid[r]
    ensures vals[r] in Present(vals, valid)
  {
    if r < |vals| - 1 { PresentHas(vals[..|vals| - 1], valid[..|vals| - 1], r); }
  }

  // The statistics of a page with a value are the extremes of its values.
  lemma SeenExtremes(w: WrittenPage, rows: nat)
    requires Written(w, rows) && HasStats(w.k) && Present(w.vals, ValidRows(w.cell.valid, rows)) != []
    requires w.page.rows != 0 && !D.HasAllNull(w.page.flags)
    ensures var s := StatsSeen(w.k, w.page, w.stats);
      IsMin(s.min, Present(w.vals, ValidRows(w.cell.valid, rows))) && IsMax(s.max, Present(w.vals, ValidRows(w.cell.valid, rows)))
  {
    hide ExtremeAt, StatsBytes, ValidRows, Present, IsMin, IsMax;
    var p := Present(w.vals, ValidRows(w.cell.valid, rows));
    var min, max :| IsMin(min, p) && IsMax(max, p) && InKind(w.k, min) && InKind(w.k, max) && w.stats == StatsBytes(w.k, min, max);
    StatsRead(w.k, min, max);
  }

  lemma SeenFlags(w: WrittenPage, rows: nat)
    requires Written(w, rows)
    ensures var s, valid := StatsSeen(w.k, w.page, w.stats), ValidRows(w.cell.valid, rows);
      && s.rows == rows
      && (s.nullCount == 0 <==> forall r :: 0 <= r < rows ==> valid[r])
      && (s.allNull ==> forall r :: 0 <= r < rows ==> !valid[r])
      && (rows > 0 && !s.allNull ==> exists r :: 0 <= r < rows && valid[r])
  {
    hide StatsBytes, ExtremeAt, ValidRows, TrueCount, IsStats;
    var valid := ValidRows(w.cell.valid, rows);
    AllCounted(valid);
    if D.AllNull(w.cell, rows) { V.NoneValid(valid); }
    SomeValid(valid);
  }

  lemma {:induction false} SomeValid(valid: seq<bool>)
    ensures NullsIn(valid) < |valid| ==> exists r :: 0 <= r < |valid| && valid[r]
  {
    if valid != [] && !valid[|valid| - 1] {
      SomeValid(valid[..|valid| - 1]);
    }
  }

  // What the reader sees describes the column.
  lemma WrittenIsDescribed(w: WrittenPage, rows: nat, hash: seq<Byte> -> nat)
    requires Written(w, rows)
    ensures P.Describes(StatsSeen(w.k, w.page, w.stats), ColumnOf(w), hash)
  {
    hide ExtremeAt, StatsBytes, ValidRows, Present, IsStats;
    var valid, s := ValidRows(w.cell.valid, rows), StatsSeen(w.k, w.page, w.stats);
    SeenFlags(w, rows);
    forall r | P.HasMinMax(s) && 0 <= r < rows && valid[r] ensures s.min <= w.vals[r] <= s.max {
      PresentHas(w.vals, valid, r);
      SeenExtremes(w, rows);
    }
  }

  // On a page without nulls they are its exact extremes.
  lemma AllValidIsExact(w: WrittenPage, rows: nat)
    requires Written(w, rows) && rows > 0 && w.k != Enum32 && forall r :: 0 <= r < rows ==> ValidRows(w.cell.valid, rows)[r]
    ensures EncodedEval.StatsOf(StatsSeen(w.k, w.page, w.stats), w.vals)
  {
    hide ExtremeAt, StatsBytes, ValidRows, Present, IsStats;
    SeenFlags(w, rows);
    AllPresent(w.vals, ValidRows(w.cell.valid, rows));
    SeenExtremes(w, rows);
  }

  // ----- pruning -----

  ghost predicate StoredColumns(ws: map<string, WrittenPage>, b: P.Batch) {
    forall n :: n in ws ==> Written(ws[n], b.rows) && n in b.cols && b.cols[n] == ColumnOf(ws[n])
  }

  function StatsOfColumns(ws: map<string, WrittenPage>): (stats: map<string, P.PageStats>)
    requires forall n :: n in ws ==> |ws[n].stats| == STATS_SIZE
  {
    map n | n in ws :: StatsSeen(ws[n].k, ws[n].page, ws[n].stats)
  }

  // For every written page and every predicate tree, pruning by the stored
  // statistics drops no selected row and whole-page matches select every row.
  lemma PruningIsSound(p: P.Pred, ws: map<string, WrittenPage>, b: P.Batch, hash: seq<Byte> -> nat, r: nat)
    requires P.ValidBatch(b) && StoredColumns(ws, b) && r < b.rows
    ensures forall n :: n in ws ==> |ws[n].stats| == STATS_SIZE
    ensures P.PrunePage(p, StatsOfColumns(ws), hash) ==> !P.Selects(p, b, r)
    ensures P.AlwaysMatches(p, StatsOfColumns(ws), hash) ==> P.Selects(p, b, r)
  {
    hide P.Describes, P.Selects, P.PrunePage, P.AlwaysMatches;
    forall n | n in ws ensures P.Describes(StatsOfColumns(ws)[n], b.cols[n], hash) {
      WrittenIsDescribed(ws[n], b.rows, hash);
    }
    P.PruneAndMatchAreSound(p, StatsOfColumns(ws), b, hash, r);
  }

  // The page as the top-K pruning sees it.
  function KeyPageOf(w: WrittenPage, rowStart: nat): (page: K.KeyPage)
    requires |w.stats| == STATS_SIZE
  {
    var s := StatsSeen(w.k, w.page, w.stats);
    K.KeyPage(rowStart, Cells(V.Masked(w.vals, ValidRows(w.cell.valid, |w.vals|))), s.min, s.max)
  }

  function Cells(vals: seq<Option<int>>): (cells: seq<SortOrder.Cell>)
    ensures |cells| == |vals|
  {
    seq(|vals|, i requires 0 <= i < |vals| => if vals[i].Some? then SortOrder.Val(vals[i].value) else SortOrder.Null)
  }

  // Its statistics cover its rows.
  lemma WrittenIsCovered(w: WrittenPage, rows: nat, rowStart: nat)
    requires Written(w, rows) && HasStats(w.k)
    ensures KeyPageOf(w, rowStart).Covered()
  {
    hide ExtremeAt, StatsBytes, ValidRows, Present, IsStats;
    var valid, s := ValidRows(w.cell.valid, rows), StatsSeen(w.k, w.page, w.stats);
    SeenFlags(w, rows);
    forall i | 0 <= i < rows && valid[i] ensures s.min <= w.vals[i] <= s.max {
      PresentHas(w.vals, valid, i);
      SeenExtremes(w, rows);
    }
  }
}
