// The segment footer: columns, page directory and page statistics, printed and parsed.
module Footer {
  import opened Options
  import opened Bytes

  const PAGE_ENTRY: nat := 32
  const STATS: nat := 16
  const MIN_COLUMN: nat := 53

  datatype Page = Page(offset: nat, length: nat, rowStart: nat, rows: nat, nullCount: nat,
                       kind: Byte, encoding: Byte, flags: Byte, reserved: Byte)

  datatype Column = Column(name: seq<Byte>, kind: Byte, labels: seq<seq<Byte>>, rows: nat, nullCount: nat, marker: Byte,
                           stats: seq<Byte>, pages: seq<Page>, pageStats: seq<seq<Byte>>)

  predicate PageFits(p: Page) {
    p.offset < U64_LIMIT && p.length < U64_LIMIT && p.rowStart < U32_LIMIT && p.rows < U32_LIMIT && p.nullCount < U32_LIMIT
  }

  // What the wire fields can hold: names and labels within 16 bits, counts within 32.
  predicate ColumnFits(c: Column) {
    && |c.name| < U16_LIMIT && |c.labels| < U32_LIMIT && (forall i :: 0 <= i < |c.labels| ==> |c.labels[i]| < U16_LIMIT)
    && c.rows < U32_LIMIT && c.nullCount < U32_LIMIT && |c.stats| == STATS
    && |c.pages| < U32_LIMIT && (forall i :: 0 <= i < |c.pages| ==> PageFits(c.pages[i]))
    && |c.pageStats| == |c.pages| && (forall i :: 0 <= i < |c.pageStats| ==> |c.pageStats[i]| == STATS)
  }

  // What the encoder itself insists on: longer strings do not fit their length field.
  predicate StringsFit(c: Column) {
    |c.name| < U16_LIMIT && forall i :: 0 <= i < |c.labels| ==> |c.labels[i]| < U16_LIMIT
  }

  predicate Fits(cols: seq<Column>) {
    |cols| < U32_LIMIT && forall i :: 0 <= i < |cols| ==> ColumnFits(cols[i])
  }

  // ----- printing -----

  function StringBytes(s: seq<Byte>): (b: seq<Byte>) {
    LE(|s|, 2) + s
  }

  function StringsBytes(ss: seq<seq<Byte>>): (b: seq<Byte>) {
    if ss == [] then [] else StringBytes(ss[0]) + StringsBytes(ss[1..])
  }

  function FrontBytes(c: Column): (b: seq<Byte>) {
    StringBytes(c.name) + ([c.kind, 0] + (LE(|c.labels|, 4) + StringsBytes(c.labels)))
  }

  function BackBytes(c: Column): (b: seq<Byte>) {
    LE(c.rows, 4) + (LE(c.nullCount, 4) + ([c.marker] + (c.stats + (LE(0, 8) + (LE(0, 8) + LE(|c.pages|, 4))))))
  }

  function HeadsBytes(cols: seq<Column>): (b: seq<Byte>) {
    if cols == [] then [] else (FrontBytes(cols[0]) + BackBytes(cols[0])) + HeadsBytes(cols[1..])
  }

  function PageBytes(p: Page): (b: seq<Byte>)
    ensures |b| == PAGE_ENTRY
  {
    LE(p.offset, 8) + (LE(p.length, 8) + (LE(p.rowStart, 4) + (LE(p.rows, 4) + (LE(p.nullCount, 4) + [p.kind, p.encoding, p.flags, p.reserved]))))
  }

  function PagesBytes(ps: seq<Page>): (b: seq<Byte>)
    ensures |b| == PAGE_ENTRY * |ps|
  {
    if ps == [] then [] else PageBytes(ps[0]) + PagesBytes(ps[1..])
  }

  function DirBytes(cols: seq<Column>): (b: seq<Byte>) {
    if cols == [] then [] else PagesBytes(cols[0].pages) + DirBytes(cols[1..])
  }

  function ChunksBytes(ss: seq<seq<Byte>>): (b: seq<Byte>) {
    if ss == [] then [] else ss[0] + ChunksBytes(ss[1..])
  }

  function StatsBytes(cols: seq<Column>): (b: seq<Byte>) {
    if cols == [] then [] else ChunksBytes(cols[0].pageStats) + StatsBytes(cols[1..])
  }

  function Encoded(cols: seq<Column>): (b: seq<Byte>) {
    LE(|cols|, 4) + (HeadsBytes(cols) + (DirBytes(cols) + StatsBytes(cols)))
  }

  // ----- parsing -----

  // A column before its pages are read: pages are only counted.
  datatype Head = Head(name: seq<Byte>, kind: Byte, labels: seq<seq<Byte>>, rows: nat, nullCount: nat, marker: Byte,
                       stats: seq<Byte>, pageCount: nat)

  function ReadU(b: seq<Byte>, pos: nat, n: nat): (r: Option<(nat, nat)>)
    ensures r.Some? ==> r.value.1 == pos + n <= |b|
  {
    if pos + n > |b| then None else Some((FromLE(b[pos..pos + n]), pos + n))
  }

  function ReadRaw(b: seq<Byte>, pos: nat, n: nat): (r: Option<(seq<Byte>, nat)>)
    ensures r.Some? ==> r.value.1 == pos + n <= |b| && |r.value.0| == n
  {
    if pos + n > |b| then None else Some((b[pos..pos + n], pos + n))
  }

  function ReadString(b: seq<Byte>, pos: nat): (r: Option<(seq<Byte>, nat)>)
    ensures r.Some? ==> pos <= r.value.1 <= |b|
  {
    match ReadU(b, pos, 2)
    case None => None
    case Some((n, next)) => ReadRaw(b, next, n)
  }

  function ReadStrings(b: seq<Byte>, pos: nat, n: nat): (r: Option<(seq<seq<Byte>>, nat)>)
    ensures r.Some? && pos <= |b| ==> pos <= r.value.1 <= |b|
    decreases n
  {
    if n == 0 then Some(([], pos))
    else
      match ReadString(b, pos)
      case None => None
      case Some((s, next)) =>
        match ReadStrings(b, next, n - 1)
        case None => None
        case Some((rest, end)) => Some(([s] + rest, end))
  }

  // Name, kind and labels.
  function ReadFront(b: seq<Byte>, pos: nat): (r: Option<(seq<Byte>, Byte, seq<seq<Byte>>, nat)>)
    ensures r.Some? ==> r.value.3 <= |b|
  {
    match ReadString(b, pos)
    case None => None
    case Some((name, p1)) =>
      if p1 + 6 > |b| || b[p1 + 1] != 0 then None
      else
        var labelCount := FromLE(b[p1 + 2..p1 + 6]);
        if labelCount > (|b| - (p1 + 6)) / 2 then None
        else
          match ReadStrings(b, p1 + 6, labelCount)
          case None => None
          case Some((labels, p2)) => Some((name, b[p1], labels, p2))
  }

  // Row counts, marker, statistics, the reserved fields and the page count.
  function ReadBack(b: seq<Byte>, pos: nat): (r: Option<(nat, nat, Byte, seq<Byte>, nat)>)
    ensures r.Some? ==> pos + 45 <= |b|
  {
    if pos + 45 > |b| then None
    else if FromLE(b[pos + 25..pos + 33]) != 0 || FromLE(b[pos + 33..pos + 41]) != 0 then None
    else
      var pageCount := FromLE(b[pos + 41..pos + 45]);
      if pageCount > (|b| - (pos + 45)) / PAGE_ENTRY then None
      else Some((FromLE(b[pos..pos + 4]), FromLE(b[pos + 4..pos + 8]), b[pos + 8], b[pos + 9..pos + 25], pageCount))
  }

  function ReadHead(b: seq<Byte>, pos: nat): (r: Option<(Head, nat)>)
    ensures r.Some? ==> r.value.1 <= |b|
  {
    match ReadFront(b, pos)
    case None => None
    case Some((name, kind, labels, p)) =>
      match ReadBack(b, p)
      case None => None
      case Some((rows, nulls, marker, stats, pages)) => Some((Head(name, kind, labels, rows, nulls, marker, stats, pages), p + 45))
  }

  function ReadHeads(b: seq<Byte>, pos: nat, n: nat): (r: Option<(seq<Head>, nat)>)
    ensures r.Some? ==> |r.value.0| == n
    decreases n
  {
    if n == 0 then Some(([], pos))
    else
      match ReadHead(b, pos)
      case None => None
      case Some((h, next)) =>
        match ReadHeads(b, next, n - 1)
        case None => None
        case Some((rest, end)) => Some(([h] + rest, end))
  }

  function ReadPage(b: seq<Byte>, pos: nat): (r: Option<(Page, nat)>)
    ensures r.Some? ==> r.value.1 == pos + PAGE_ENTRY <= |b|
  {
    if pos + PAGE_ENTRY > |b| then None
    else Some((Page(FromLE(b[pos..pos + 8]), FromLE(b[pos + 8..pos + 16]), FromLE(b[pos + 16..pos + 20]),
                    FromLE(b[pos + 20..pos + 24]), FromLE(b[pos + 24..pos + 28]),
                    b[pos + 28], b[pos + 29], b[pos + 30], b[pos + 31]), pos + PAGE_ENTRY))
  }

  function ReadPages(b: seq<Byte>, pos: nat, n: nat): (r: Option<(seq<Page>, nat)>)
    ensures r.Some? ==> |r.value.0| == n
    decreases n
  {
    if n == 0 then Some(([], pos))
    else
      match ReadPage(b, pos)
      case None => None
      case Some((p, next)) =>
        match ReadPages(b, next, n - 1)
        case None => None
        case Some((rest, end)) => Some(([p] + rest, end))
  }

  function ReadDir(b: seq<Byte>, pos: nat, heads: seq<Head>): (r: Option<(seq<seq<Page>>, nat)>)
    ensures r.Some? ==> |r.value.0| == |heads|
    decreases |heads|
  {
    if heads == [] then Some(([], pos))
    else
      match ReadPages(b, pos, heads[0].pageCount)
      case None => None
      case Some((ps, next)) =>
        match ReadDir(b, next, heads[1..])
        case None => None
        case Some((rest, end)) => Some(([ps] + rest, end))
  }

  // The 16-byte pieces of the statistics of one column.
  function Pieces(raw: seq<Byte>, n: nat): (ss: seq<seq<Byte>>)
    requires |raw| == n * STATS
    ensures |ss| == n
    decreases n
  {
    if n == 0 then [] else [raw[..STATS]] + Pieces(raw[STATS..], n - 1)
  }

  function ReadStats(b: seq<Byte>, pos: nat, heads: seq<Head>): (r: Option<(seq<seq<seq<Byte>>>, nat)>)
    ensures r.Some? ==> |r.value.0| == |heads|
    decreases |heads|
  {
    if heads == [] then Some(([], pos))
    else
      match ReadRaw(b, pos, heads[0].pageCount * STATS)
      case None => None
      case Some((raw, next)) =>
        match ReadStats(b, next, heads[1..])
        case None => None
        case Some((rest, end)) => Some(([Pieces(raw, heads[0].pageCount)] + rest, end))
  }

  function Assemble(heads: seq<Head>, dir: seq<seq<Page>>, stats: seq<seq<seq<Byte>>>): (cols: seq<Column>)
    requires |dir| == |heads| && |stats| == |heads|
    ensures |cols| == |heads|
  {
    seq(|heads|, i requires 0 <= i < |heads| =>
      Column(heads[i].name, heads[i].kind, heads[i].labels, heads[i].rows, heads[i].nullCount, heads[i].marker, heads[i].stats, dir[i], stats[i]))
  }

  function Parsed(b: seq<Byte>): (cols: Option<seq<Column>>) {
    if |b| < 4 then None
    else
      var count := FromLE(b[..4]);
      if count > (|b| - 4) / MIN_COLUMN then None
      else
        match ReadHeads(b, 4, count)
        case None => None
        case Some((heads, p1)) =>
          match ReadDir(b, p1, heads)
          case None => None
          case Some((dir, p2)) =>
            match ReadStats(b, p2, heads)
            case None => None
            case Some((stats, p3)) => if p3 != |b| then None else Some(Assemble(heads, dir, stats))
  }

  // ----- the round trip -----

  // The bytes x stand at a position.
  predicate At(b: seq<Byte>, pos: nat, x: seq<Byte>) {
    pos + |x| <= |b| && b[pos..pos + |x|] == x
  }

  lemma Split(b: seq<Byte>, pos: nat, x: seq<Byte>, y: seq<Byte>)
    requires At(b, pos, x + y)
    ensures At(b, pos, x) && At(b, pos + |x|, y)
  {
    assert b[pos..pos + |x|] == b[pos..pos + |x + y|][..|x|];
    assert b[pos + |x|..pos + |x| + |y|] == b[pos..pos + |x + y|][|x|..];
  }

  lemma AtLE(b: seq<Byte>, pos: nat, v: nat, n: nat)
    requires v < Pow256(n) && At(b, pos, LE(v, n))
    ensures ReadU(b, pos, n) == Some((v, pos + n)) && pos + n <= |b| && FromLE(b[pos..pos + n]) == v
  {
    FromLEOfLE(v, n);
  }

  lemma AtString(b: seq<Byte>, pos: nat, s: seq<Byte>)
    requires |s| < U16_LIMIT && At(b, pos, StringBytes(s))
    ensures ReadString(b, pos) == Some((s, pos + |StringBytes(s)|))
  {
    hide LE, FromLE, At;
    Widths();
    Split(b, pos, LE(|s|, 2), s);
    AtLE(b, pos, |s|, 2);
    AtRaw(b, pos + 2, s);
  }

  lemma AtRaw(b: seq<Byte>, pos: nat, x: seq<Byte>)
    requires At(b, pos, x)
    ensures ReadRaw(b, pos, |x|) == Some((x, pos + |x|))
  {
  }

  lemma {:induction false} AtStrings(b: seq<Byte>, pos: nat, ss: seq<seq<Byte>>)
    requires At(b, pos, StringsBytes(ss)) && forall i :: 0 <= i < |ss| ==> |ss[i]| < U16_LIMIT
    ensures ReadStrings(b, pos, |ss|) == Some((ss, pos + |StringsBytes(ss)|))
    ensures 2 * |ss| <= |StringsBytes(ss)|
    decreases |ss|
  {
    hide At, ReadString, StringBytes;
    if ss != [] {
      Split(b, pos, StringBytes(ss[0]), StringsBytes(ss[1..]));
      AtString(b, pos, ss[0]);
      AtStrings(b, pos + |StringBytes(ss[0])|, ss[1..]);
      StringSize(ss[0]);
      assert [ss[0]] + ss[1..] == ss;
    }
  }

  lemma StringSize(s: seq<Byte>)
    ensures |StringBytes(s)| == 2 + |s|
  {
  }

  lemma AtFront(b: seq<Byte>, pos: nat, c: Column)
    requires ColumnFits(c) && At(b, pos, FrontBytes(c))
    ensures ReadFront(b, pos) == Some((c.name, c.kind, c.labels, pos + |FrontBytes(c)|))
    ensures |FrontBytes(c)| >= 8
  {
    hide LE, FromLE, At, StringBytes, StringsBytes, ReadString, ReadStrings;
    Widths();
    var name, kind, count, labels := StringBytes(c.name), [c.kind, 0], LE(|c.labels|, 4), StringsBytes(c.labels);
    var p := pos + |name|;
    Split(b, pos, name, kind + (count + labels));
    Split(b, p, kind, count + labels);
    Split(b, p + 2, count, labels);
    AtString(b, pos, c.name);
    AtTwo(b, p, c.kind, 0);
    AtLE(b, p + 2, |c.labels|, 4);
    AtStrings(b, p + 6, c.labels);
    AtInside(b, p + 6, labels);
    StringSize(c.name);
  }

  lemma AtInside(b: seq<Byte>, pos: nat, x: seq<Byte>)
    requires At(b, pos, x)
    ensures pos + |x| <= |b|
  {
  }

  lemma AtTwo(b: seq<Byte>, pos: nat, x: Byte, y: Byte)
    requires At(b, pos, [x, y])
    ensures pos + 2 <= |b| && b[pos] == x && b[pos + 1] == y
  {
    assert b[pos..pos + 2][0] == x && b[pos..pos + 2][1] == y;
  }

  lemma AtOne(b: seq<Byte>, pos: nat, x: Byte)
    requires At(b, pos, [x])
    ensures pos + 1 <= |b| && b[pos] == x
  {
    assert b[pos..pos + 1][0] == x;
  }

  lemma AtBack(b: seq<Byte>, pos: nat, c: Column)
    requires ColumnFits(c) && At(b, pos, BackBytes(c)) && PAGE_ENTRY * |c.pages| <= |b| - (pos + 45)
    ensures ReadBack(b, pos) == Some((c.rows, c.nullCount, c.marker, c.stats, |c.pages|))
    ensures |BackBytes(c)| == 45
  {
    hide LE, FromLE, At;
    Widths();
    var rows, nulls, marker, zero, count := LE(c.rows, 4), LE(c.nullCount, 4), [c.marker], LE(0, 8), LE(|c.pages|, 4);
    Split(b, pos, rows, nulls + (marker + (c.stats + (zero + (zero + count)))));
    Split(b, pos + 4, nulls, marker + (c.stats + (zero + (zero + count))));
    Split(b, pos + 8, marker, c.stats + (zero + (zero + count)));
    Split(b, pos + 9, c.stats, zero + (zero + count));
    Split(b, pos + 25, zero, zero + count);
    Split(b, pos + 33, zero, count);
    AtLE(b, pos, c.rows, 4);
    AtLE(b, pos + 4, c.nullCount, 4);
    AtOne(b, pos + 8, c.marker);
    AtRaw(b, pos + 9, c.stats);
    AtLE(b, pos + 25, 0, 8);
    AtLE(b, pos + 33, 0, 8);
    AtLE(b, pos + 41, |c.pages|, 4);
  }

  function HeadOf(c: Column): Head {
    Head(c.name, c.kind, c.labels, c.rows, c.nullCount, c.marker, c.stats, |c.pages|)
  }

  function HeadsOf(cols: seq<Column>): (hs: seq<Head>)
    ensures |hs| == |cols| && forall i :: 0 <= i < |cols| ==> hs[i] == HeadOf(cols[i])
  {
    seq(|cols|, i requires 0 <= i < |cols| => HeadOf(cols[i]))
  }

  // Room behind the heads for every column's pages, so that no page-count guard rejects.
  predicate Room(cols: seq<Column>, left: int) {
    forall i :: 0 <= i < |cols| ==> PAGE_ENTRY * |cols[i].pages| <= left
  }

  lemma {:induction false} AtHeads(b: seq<Byte>, pos: nat, cols: seq<Column>)
    requires (forall i :: 0 <= i < |cols| ==> ColumnFits(cols[i])) && At(b, pos, HeadsBytes(cols))
    requires Room(cols, |b| - (pos + |HeadsBytes(cols)|))
    ensures ReadHeads(b, pos, |cols|) == Some((HeadsOf(cols), pos + |HeadsBytes(cols)|))
    ensures MIN_COLUMN * |cols| <= |HeadsBytes(cols)|
    decreases |cols|
  {
    hide At, ReadFront, ReadBack, FrontBytes, BackBytes, ColumnFits;
    if cols != [] {
      var c, more := cols[0], cols[1..];
      var front, back := FrontBytes(c), BackBytes(c);
      Split(b, pos, front + back, HeadsBytes(more));
      Split(b, pos, front, back);
      AtFront(b, pos, c);
      BackSize(c);
      AtInside(b, pos + |front + back|, HeadsBytes(more));
      AtBack(b, pos + |front|, c);
      AtHeads(b, pos + |front + back|, more);
      assert [HeadOf(c)] + HeadsOf(more) == HeadsOf(cols);
    } else {
      assert HeadsOf(cols) == [];
    }
  }

  lemma BackSize(c: Column)
    requires ColumnFits(c)
    ensures |BackBytes(c)| == 45
  {
    hide LE;
  }

  lemma AtPage(b: seq<Byte>, pos: nat, p: Page)
    requires PageFits(p) && At(b, pos, PageBytes(p))
    ensures ReadPage(b, pos) == Some((p, pos + PAGE_ENTRY))
  {
    hide LE, FromLE, At;
    Widths();
    var o, l, s, r, n, t := LE(p.offset, 8), LE(p.length, 8), LE(p.rowStart, 4), LE(p.rows, 4), LE(p.nullCount, 4), [p.kind, p.encoding, p.flags, p.reserved];
    Split(b, pos, o, l + (s + (r + (n + t))));
    Split(b, pos + 8, l, s + (r + (n + t)));
    Split(b, pos + 16, s, r + (n + t));
    Split(b, pos + 20, r, n + t);
    Split(b, pos + 24, n, t);
    AtLE(b, pos, p.offset, 8);
    AtLE(b, pos + 8, p.length, 8);
    AtLE(b, pos + 16, p.rowStart, 4);
    AtLE(b, pos + 20, p.rows, 4);
    AtLE(b, pos + 24, p.nullCount, 4);
    assert t == [p.kind, p.encoding] + [p.flags, p.reserved];
    Split(b, pos + 28, [p.kind, p.encoding], [p.flags, p.reserved]);
    AtTwo(b, pos + 28, p.kind, p.encoding);
    AtTwo(b, pos + 30, p.flags, p.reserved);
  }

  lemma {:induction false} AtPages(b: seq<Byte>, pos: nat, ps: seq<Page>)
    requires (forall i :: 0 <= i < |ps| ==> PageFits(ps[i])) && At(b, pos, PagesBytes(ps))
    ensures ReadPages(b, pos, |ps|) == Some((ps, pos + PAGE_ENTRY * |ps|))
    decreases |ps|
  {
    hide At, ReadPage, PageBytes;
    if ps != [] {
      Split(b, pos, PageBytes(ps[0]), PagesBytes(ps[1..]));
      AtPage(b, pos, ps[0]);
      AtPages(b, pos + PAGE_ENTRY, ps[1..]);
      assert [ps[0]] + ps[1..] == ps;
    }
  }

  function PagesOf(cols: seq<Column>): (ps: seq<seq<Page>>)
    ensures |ps| == |cols| && forall i :: 0 <= i < |cols| ==> ps[i] == cols[i].pages
  {
    seq(|cols|, i requires 0 <= i < |cols| => cols[i].pages)
  }

  function StatsOf(cols: seq<Column>): (ss: seq<seq<seq<Byte>>>)
    ensures |ss| == |cols| && forall i :: 0 <= i < |cols| ==> ss[i] == cols[i].pageStats
  {
    seq(|cols|, i requires 0 <= i < |cols| => cols[i].pageStats)
  }

  lemma HeadsTail(cols: seq<Column>)
    requires cols != []
    ensures HeadsOf(cols)[1..] == HeadsOf(cols[1..])
  {
  }

  lemma {:induction false} AtDir(b: seq<Byte>, pos: nat, cols: seq<Column>)
    requires (forall i :: 0 <= i < |cols| ==> ColumnFits(cols[i])) && At(b, pos, DirBytes(cols))
    ensures ReadDir(b, pos, HeadsOf(cols)) == Some((PagesOf(cols), pos + |DirBytes(cols)|))
    ensures Room(cols, |DirBytes(cols)|)
    decreases |cols|
  {
    hide At, ReadPages, PagesBytes;
    if cols != [] {
      Split(b, pos, PagesBytes(cols[0].pages), DirBytes(cols[1..]));
      AtPages(b, pos, cols[0].pages);
      AtDir(b, pos + PAGE_ENTRY * |cols[0].pages|, cols[1..]);
      HeadsTail(cols);
      hide ColumnFits;
      assert [cols[0].pages] + PagesOf(cols[1..]) == PagesOf(cols);
    } else {
      assert HeadsOf(cols) == [] && PagesOf(cols) == [];
    }
  }

  lemma {:induction false} PiecesOfChunks(ss: seq<seq<Byte>>)
    requires forall i :: 0 <= i < |ss| ==> |ss[i]| == STATS
    ensures |ChunksBytes(ss)| == |ss| * STATS && Pieces(ChunksBytes(ss), |ss|) == ss
    decreases |ss|
  {
    if ss != [] {
      PiecesOfChunks(ss[1..]);
      assert ChunksBytes(ss)[..STATS] == ss[0] && ChunksBytes(ss)[STATS..] == ChunksBytes(ss[1..]);
      assert [ss[0]] + ss[1..] == ss;
    }
  }

  lemma {:induction false} AtStats(b: seq<Byte>, pos: nat, cols: seq<Column>)
    requires (forall i :: 0 <= i < |cols| ==> ColumnFits(cols[i])) && At(b, pos, StatsBytes(cols))
    ensures ReadStats(b, pos, HeadsOf(cols)) == Some((StatsOf(cols), pos + |StatsBytes(cols)|))
    decreases |cols|
  {
    hide At, ChunksBytes, Pieces;
    if cols != [] {
      var ss := cols[0].pageStats;
      Split(b, pos, ChunksBytes(ss), StatsBytes(cols[1..]));
      PiecesOfChunks(ss);
      AtRaw(b, pos, ChunksBytes(ss));
      AtStats(b, pos + |ChunksBytes(ss)|, cols[1..]);
      assert HeadsOf(cols)[1..] == HeadsOf(cols[1..]);
      assert [ss] + StatsOf(cols[1..]) == StatsOf(cols);
    } else {
      assert HeadsOf(cols) == [] && StatsOf(cols) == [];
    }
  }

  // Parsing the printed footer gives the columns back, and none of the size
  // guards rejects what the encoder wrote.
  lemma RoundTrip(cols: seq<Column>)
    requires Fits(cols)
    ensures Parsed(Encoded(cols)) == Some(cols)
  {
    hide LE, FromLE, At, HeadsBytes, DirBytes, StatsBytes, ReadHeads, ReadDir, ReadStats, ColumnFits;
    Widths();
    var b := Encoded(cols);
    var count, heads, dir, stats := LE(|cols|, 4), HeadsBytes(cols), DirBytes(cols), StatsBytes(cols);
    WholeAt(b);
    Split(b, 0, count, heads + (dir + stats));
    Split(b, 4, heads, dir + stats);
    Split(b, 4 + |heads|, dir, stats);
    AtLE(b, 0, |cols|, 4);
    assert b[..4] == b[0..4];
    AtDir(b, 4 + |heads|, cols);
    AtStats(b, 4 + |heads| + |dir|, cols);
    AtHeads(b, 4, cols);
    Assembled(cols);
  }

  lemma WholeAt(b: seq<Byte>)
    ensures At(b, 0, b)
  {
    assert b[0..|b|] == b;
  }

  lemma Assembled(cols: seq<Column>)
    ensures Assemble(HeadsOf(cols), PagesOf(cols), StatsOf(cols)) == cols
  {
  }
}
