// The footer encoder and parser as they run: a growing buffer, and a reader
// whose first short read makes every later read fail.
module FooterWire {
  import opened Options
  import opened Bytes
  import opened Footer

  class WireBuffer {
    var buf: seq<Byte>

    constructor ()
      ensures buf == []
    {
      buf := [];
    }

    method U(v: nat, n: nat)
      modifies this
      ensures buf == old(buf) + LE(v, n)
    {
      buf := buf + LE(v, n);
    }

    method Raw(b: seq<Byte>)
      modifies this
      ensures buf == old(buf) + b
    {
      buf := buf + b;
    }

    // Longer strings do not fit the length field; the original refuses them outright.
    method LenPrefixedString(s: seq<Byte>)
      requires |s| < U16_LIMIT
      modifies this
      ensures buf == old(buf) + StringBytes(s)
    {
      hide LE;
      var before := buf;
      U(|s|, 2);
      buf := buf + s;
      assert buf == before + StringBytes(s);
    }

    method Front(c: Column)
      requires StringsFit(c)
      modifies this
      ensures buf == old(buf) + FrontBytes(c)
    {
      hide LE, StringBytes;
      ghost var start := buf;
      LenPrefixedString(c.name);
      Raw([c.kind]);
      Raw([0]);
      U(|c.labels|, 4);
      ghost var mid := buf;
      for i := 0 to |c.labels|
        invariant buf + StringsBytes(c.labels[i..]) == mid + StringsBytes(c.labels)
      {
        assert c.labels[i..][1..] == c.labels[i + 1..];
        SuffixStep(buf, StringBytes(c.labels[i]), StringsBytes(c.labels[i + 1..]));
        LenPrefixedString(c.labels[i]);
      }
      assert buf + [] == buf;
      FrontDone(start, c, buf);
    }

    method Back(c: Column)
      modifies this
      ensures buf == old(buf) + BackBytes(c)
    {
      hide LE;
      ghost var front := buf;
      U(c.rows, 4);
      U(c.nullCount, 4);
      Raw([c.marker]);
      Raw(c.stats);
      U(0, 8);
      U(0, 8);
      U(|c.pages|, 4);
      BackDone(front, c, buf);
    }

    method Head(c: Column)
      requires StringsFit(c)
      modifies this
      ensures buf == old(buf) + (FrontBytes(c) + BackBytes(c))
    {
      hide FrontBytes, BackBytes;
      SuffixStep(buf, FrontBytes(c), BackBytes(c));
      Front(c);
      Back(c);
    }
  }

  lemma FrontDone(start: seq<Byte>, c: Column, b: seq<Byte>)
    requires b == start + StringBytes(c.name) + [c.kind] + [0] + LE(|c.labels|, 4) + StringsBytes(c.labels)
    ensures b == start + FrontBytes(c)
  {
    hide LE, StringBytes, StringsBytes;
  }

  lemma BackDone(front: seq<Byte>, c: Column, b: seq<Byte>)
    requires b == front + LE(c.rows, 4) + LE(c.nullCount, 4) + [c.marker] + c.stats + LE(0, 8) + LE(0, 8) + LE(|c.pages|, 4)
    ensures b == front + BackBytes(c)
  {
    hide LE;
  }

  lemma SuffixStep(w: seq<Byte>, x: seq<Byte>, rest: seq<Byte>)
    ensures w + x + rest == w + (x + rest)
  {
  }

  method EncodeFooter(cols: seq<Column>) returns (b: seq<Byte>)
    requires forall i :: 0 <= i < |cols| ==> StringsFit(cols[i])
    ensures b == Encoded(cols)
  {
    hide LE, StringsFit, FrontBytes, BackBytes, PageBytes;
    var w := new WireBuffer();
    w.U(|cols|, 4);
    ghost var start := w.buf;
    for i := 0 to |cols|
      invariant w.buf + HeadsBytes(cols[i..]) == start + HeadsBytes(cols)
    {
      assert cols[i..][1..] == cols[i + 1..];
      SuffixStep(w.buf, FrontBytes(cols[i]) + BackBytes(cols[i]), HeadsBytes(cols[i + 1..]));
      w.Head(cols[i]);
    }
    assert w.buf + [] == w.buf;
    ghost var heads := w.buf;
    for i := 0 to |cols|
      invariant w.buf + DirBytes(cols[i..]) == heads + DirBytes(cols)
    {
      assert cols[i..][1..] == cols[i + 1..];
      SuffixStep(w.buf, PagesBytes(cols[i].pages), DirBytes(cols[i + 1..]));
      WritePages(w, cols[i].pages);
    }
    assert w.buf + [] == w.buf;
    ghost var dir := w.buf;
    for i := 0 to |cols|
      invariant w.buf + StatsBytes(cols[i..]) == dir + StatsBytes(cols)
    {
      assert cols[i..][1..] == cols[i + 1..];
      SuffixStep(w.buf, ChunksBytes(cols[i].pageStats), StatsBytes(cols[i + 1..]));
      WriteStats(w, cols[i].pageStats);
    }
    assert w.buf + [] == w.buf;
    b := w.buf;
    assert [] + LE(|cols|, 4) == LE(|cols|, 4);
    assert b == LE(|cols|, 4) + HeadsBytes(cols) + DirBytes(cols) + StatsBytes(cols);
    assert b == Encoded(cols);
  }

  method WritePages(w: WireBuffer, ps: seq<Page>)
    modifies w
    ensures w.buf == old(w.buf) + PagesBytes(ps)
  {
    hide PageBytes;
    ghost var start := w.buf;
    for j := 0 to |ps|
      invariant w.buf + PagesBytes(ps[j..]) == start + PagesBytes(ps)
    {
      assert ps[j..][1..] == ps[j + 1..];
      SuffixStep(w.buf, PageBytes(ps[j]), PagesBytes(ps[j + 1..]));
      w.Raw(PageBytes(ps[j]));
    }
    assert w.buf + [] == w.buf;
  }

  method WriteStats(w: WireBuffer, ss: seq<seq<Byte>>)
    modifies w
    ensures w.buf == old(w.buf) + ChunksBytes(ss)
  {
    ghost var start := w.buf;
    for j := 0 to |ss|
      invariant w.buf + ChunksBytes(ss[j..]) == start + ChunksBytes(ss)
    {
      assert ss[j..][1..] == ss[j + 1..];
      SuffixStep(w.buf, ss[j], ChunksBytes(ss[j + 1..]));
      w.Raw(ss[j]);
    }
    assert w.buf + [] == w.buf;
  }

  // ----- reading -----

  class WireReader {
    const buf: seq<Byte>
    var pos: nat
    var failed: bool

    ghost predicate Valid()
      reads this
    {
      pos <= |buf|
    }

    constructor (buf: seq<Byte>)
      ensures Valid() && this.buf == buf && pos == 0 && !failed
    {
      this.buf, pos, failed := buf, 0, false;
    }

    function Remaining(): int
      reads this
    {
      |buf| - pos
    }

    // A failed reader stays failed and where it is.
    method Raw(n: nat) returns (v: seq<Byte>)
      requires Valid()
      modifies this
      ensures Valid()
      ensures old(failed) ==> failed
      ensures !old(failed) ==> match ReadRaw(buf, old(pos), n)
                               case None => failed
                               case Some((x, next)) => !failed && v == x && pos == next
    {
      v := [];
      if failed || pos + n > |buf| {
        failed := true;
        return;
      }
      v := buf[pos..pos + n];
      pos := pos + n;
    }

    method U(n: nat) returns (v: nat)
      requires Valid()
      modifies this
      ensures Valid()
      ensures old(failed) ==> failed && v == 0
      ensures !old(failed) ==> match ReadU(buf, old(pos), n)
                               case None => failed && v == 0
                               case Some((x, next)) => !failed && v == x && pos == next
    {
      v := 0;
      if failed || pos + n > |buf| {
        failed := true;
        return;
      }
      v := FromLE(buf[pos..pos + n]);
      pos := pos + n;
    }

    method U8() returns (v: Byte)
      requires Valid()
      modifies this
      ensures Valid()
      ensures old(failed) ==> failed && v == 0
      ensures !old(failed) && old(pos) >= |buf| ==> failed && v == 0
      ensures !old(failed) && old(pos) < |buf| ==> !failed && v == buf[old(pos)] && pos == old(pos) + 1
    {
      v := 0;
      if failed || pos + 1 > |buf| {
        failed := true;
        return;
      }
      v := buf[pos];
      pos := pos + 1;
    }

    method LenPrefixedString() returns (s: seq<Byte>)
      requires Valid()
      modifies this
      ensures Valid()
      ensures old(failed) ==> failed
      ensures !old(failed) ==> match ReadString(buf, old(pos))
                               case None => failed
                               case Some((x, next)) => !failed && s == x && pos == next
    {
      hide FromLE;
      var n := U(2);
      s := Raw(n);
    }

    // labelCount strings.
    method Strings(n: nat) returns (ss: seq<seq<Byte>>)
      requires Valid()
      modifies this
      ensures Valid()
      ensures old(failed) ==> failed
      ensures !old(failed) ==> match ReadStrings(buf, old(pos), n)
                               case None => failed
                               case Some((xs, next)) => !failed && ss == xs && pos == next
    {
      hide ReadString, FromLE;
      ss := [];
      ghost var all := ReadStrings(buf, pos, n);
      JoinNothing(all);
      for j := 0 to n
        invariant Valid() && (old(failed) ==> failed)
        invariant !old(failed) ==> if failed then all == None else all == Join(ss, ReadStrings(buf, pos, n - j))
      {
        if !failed { StringsStep(buf, pos, n - j, ss); }
        var s := LenPrefixedString();
        ss := ss + [s];
      }
      assert ss + [] == ss;
    }
  }

  function Join<T>(a: seq<T>, r: Option<(seq<T>, nat)>): Option<(seq<T>, nat)> {
    match r
    case None => None
    case Some((b, end)) => Some((a + b, end))
  }

  lemma JoinNothing<T>(r: Option<(seq<T>, nat)>)
    ensures Join([], r) == r
  {
    if r.Some? { assert [] + r.value.0 == r.value.0; }
  }

  lemma JoinStep<T>(a: seq<T>, x: T, r: Option<(seq<T>, nat)>)
    ensures Join(a + [x], r) == Join(a, Join([x], r))
  {
    if r.Some? { assert a + ([x] + r.value.0) == a + [x] + r.value.0; }
  }

  lemma StringsStep(b: seq<Byte>, pos: nat, n: nat, ss: seq<seq<Byte>>)
    requires n > 0
    ensures Join(ss, ReadStrings(b, pos, n))
      == match ReadString(b, pos) case None => None case Some((s, next)) => Join(ss + [s], ReadStrings(b, next, n - 1))
  {
    hide ReadString;
    if ReadString(b, pos).Some? {
      var (s, next) := ReadString(b, pos).value;
      JoinStep(ss, s, ReadStrings(b, next, n - 1));
    }
  }

  // Name, kind and labels; ok is false when the reserved byte is set or the label count cannot be right.
  method ParseFront(r: WireReader) returns (ok: bool, name: seq<Byte>, kind: Byte, labels: seq<seq<Byte>>)
    requires r.Valid() && !r.failed
    modifies r
    ensures r.Valid()
    ensures match ReadFront(r.buf, old(r.pos))
            case None => !ok || r.failed
            case Some((n, k, ls, next)) => ok && !r.failed && name == n && kind == k && labels == ls && r.pos == next
  {
    hide FromLE, ReadString, ReadStrings;
    kind, labels := 0, [];
    name := r.LenPrefixedString();
    kind := r.U8();
    var encodingFlags := r.U8();
    if encodingFlags != 0 {
      return false, name, kind, labels;
    }
    var labelCount := r.U(4);
    if labelCount > r.Remaining() / 2 {
      return false, name, kind, labels;
    }
    labels := r.Strings(labelCount);
    ok := true;
  }

  // The rest of a column, up to its page count.
  method ParseBack(r: WireReader) returns (ok: bool, rows: nat, nulls: nat, marker: Byte, stats: seq<Byte>, pageCount: nat)
    requires r.Valid()
    modifies r
    ensures r.Valid()
    ensures old(r.failed) ==> !ok || r.failed
    ensures !old(r.failed) ==> match ReadBack(r.buf, old(r.pos))
                               case None => !ok || r.failed
                               case Some((a, b, c, d, e)) =>
                                 ok && !r.failed && rows == a && nulls == b && marker == c && stats == d && pageCount == e && r.pos == old(r.pos) + 45
  {
    hide FromLE;
    pageCount := 0;
    rows := r.U(4);
    nulls := r.U(4);
    marker := r.U8();
    stats := r.Raw(STATS);
    var heavyOffset := r.U(8);
    var heavyLength := r.U(8);
    if heavyOffset != 0 || heavyLength != 0 {
      return false, rows, nulls, marker, stats, pageCount;
    }
    pageCount := r.U(4);
    ok := pageCount <= r.Remaining() / PAGE_ENTRY;
  }

  method ParseHead(r: WireReader) returns (ok: bool, h: Head)
    requires r.Valid()
    modifies r
    ensures r.Valid()
    ensures old(r.failed) ==> !ok || r.failed
    ensures !old(r.failed) ==> match ReadHead(r.buf, old(r.pos))
                               case None => !ok || r.failed
                               case Some((x, next)) => ok && !r.failed && h == x && r.pos == next
  {
    hide FromLE, ReadString, ReadStrings, ReadFront, ReadBack;
    h := Head([], 0, [], 0, 0, 0, [], 0);
    if r.failed {
      return false, h;
    }
    var fine, name, kind, labels := ParseFront(r);
    if !fine {
      return false, h;
    }
    var rows, nulls, marker, stats, pageCount;
    ok, rows, nulls, marker, stats, pageCount := ParseBack(r);
    h := Head(name, kind, labels, rows, nulls, marker, stats, pageCount);
  }

  lemma HeadsStep(b: seq<Byte>, pos: nat, n: nat, hs: seq<Head>)
    requires n > 0
    ensures Join(hs, ReadHeads(b, pos, n))
      == match ReadHead(b, pos) case None => None case Some((h, next)) => Join(hs + [h], ReadHeads(b, next, n - 1))
  {
    hide ReadHead;
    if ReadHead(b, pos).Some? {
      var (h, next) := ReadHead(b, pos).value;
      JoinStep(hs, h, ReadHeads(b, next, n - 1));
    }
  }

  method ParseHeads(r: WireReader, n: nat) returns (hs: Option<seq<Head>>)
    requires r.Valid() && !r.failed
    modifies r
    ensures r.Valid()
    ensures match ReadHeads(r.buf, old(r.pos), n)
            case None => hs == None || r.failed
            case Some((xs, next)) => hs == Some(xs) && !r.failed && r.pos == next
  {
    hide ReadHead;
    var heads: seq<Head> := [];
    ghost var all := ReadHeads(r.buf, r.pos, n);
    JoinNothing(all);
    for i := 0 to n
      invariant r.Valid()
      invariant if r.failed then all == None else all == Join(heads, ReadHeads(r.buf, r.pos, n - i))
    {
      if !r.failed { HeadsStep(r.buf, r.pos, n - i, heads); }
      var ok, h := ParseHead(r);
      if !ok {
        return None;
      }
      heads := heads + [h];
    }
    assert heads + [] == heads;
    hs := Some(heads);
  }

  lemma PagesStep(b: seq<Byte>, pos: nat, n: nat, ps: seq<Page>)
    requires n > 0
    ensures Join(ps, ReadPages(b, pos, n))
      == match ReadPage(b, pos) case None => None case Some((p, next)) => Join(ps + [p], ReadPages(b, next, n - 1))
  {
    hide ReadPage;
    if ReadPage(b, pos).Some? {
      var (p, next) := ReadPage(b, pos).value;
      JoinStep(ps, p, ReadPages(b, next, n - 1));
    }
  }

  function DecodePageEntry(src: seq<Byte>): (p: Page)
    requires |src| == PAGE_ENTRY
  {
    Page(FromLE(src[0..8]), FromLE(src[8..16]), FromLE(src[16..20]), FromLE(src[20..24]), FromLE(src[24..28]),
         src[28], src[29], src[30], src[31])
  }

  lemma PageEntryReads(b: seq<Byte>, pos: nat)
    requires pos + PAGE_ENTRY <= |b|
    ensures ReadPage(b, pos) == Some((DecodePageEntry(b[pos..pos + PAGE_ENTRY]), pos + PAGE_ENTRY))
  {
    hide FromLE;
    SliceOfSlice(b, pos, pos + PAGE_ENTRY, 0, 8);
    SliceOfSlice(b, pos, pos + PAGE_ENTRY, 8, 16);
    SliceOfSlice(b, pos, pos + PAGE_ENTRY, 16, 20);
    SliceOfSlice(b, pos, pos + PAGE_ENTRY, 20, 24);
    SliceOfSlice(b, pos, pos + PAGE_ENTRY, 24, 28);
  }

  method ParsePages(r: WireReader, n: nat) returns (ps: Option<seq<Page>>)
    requires r.Valid() && !r.failed
    modifies r
    ensures r.Valid()
    ensures match ReadPages(r.buf, old(r.pos), n)
            case None => ps == None
            case Some((xs, next)) => ps == Some(xs) && !r.failed && r.pos == next
  {
    hide ReadPage;
    var pages: seq<Page> := [];
    ghost var all := ReadPages(r.buf, r.pos, n);
    JoinNothing(all);
    for j := 0 to n
      invariant r.Valid() && !r.failed && all == Join(pages, ReadPages(r.buf, r.pos, n - j))
    {
      PagesStep(r.buf, r.pos, n - j, pages);
      if r.pos + PAGE_ENTRY <= |r.buf| { PageEntryReads(r.buf, r.pos); }
      var raw := r.Raw(PAGE_ENTRY);
      if r.failed {
        return None;
      }
      pages := pages + [DecodePageEntry(raw)];
    }
    assert pages + [] == pages;
    ps := Some(pages);
  }

  lemma DirStep(b: seq<Byte>, pos: nat, heads: seq<Head>, dir: seq<seq<Page>>)
    requires heads != []
    ensures Join(dir, ReadDir(b, pos, heads))
      == match ReadPages(b, pos, heads[0].pageCount) case None => None case Some((ps, next)) => Join(dir + [ps], ReadDir(b, next, heads[1..]))
  {
    hide ReadPages;
    if ReadPages(b, pos, heads[0].pageCount).Some? {
      var (ps, next) := ReadPages(b, pos, heads[0].pageCount).value;
      JoinStep(dir, ps, ReadDir(b, next, heads[1..]));
    }
  }

  method ParseDir(r: WireReader, heads: seq<Head>) returns (dir: Option<seq<seq<Page>>>)
    requires r.Valid() && !r.failed
    modifies r
    ensures r.Valid()
    ensures match ReadDir(r.buf, old(r.pos), heads)
            case None => dir == None
            case Some((xs, next)) => dir == Some(xs) && !r.failed && r.pos == next
  {
    hide ReadPages;
    var out: seq<seq<Page>> := [];
    ghost var all := ReadDir(r.buf, r.pos, heads);
    JoinNothing(all);
    assert heads[0..] == heads;
    for i := 0 to |heads|
      invariant r.Valid() && !r.failed && all == Join(out, ReadDir(r.buf, r.pos, heads[i..]))
    {
      DirStep(r.buf, r.pos, heads[i..], out);
      assert heads[i..][1..] == heads[i + 1..];
      var ps := ParsePages(r, heads[i].pageCount);
      if ps.None? {
        return None;
      }
      out := out + [ps.value];
    }
    assert out + [] == out;
    dir := Some(out);
  }

  lemma StatsStep(b: seq<Byte>, pos: nat, heads: seq<Head>, ss: seq<seq<seq<Byte>>>)
    requires heads != []
    ensures Join(ss, ReadStats(b, pos, heads))
      == match ReadRaw(b, pos, heads[0].pageCount * STATS)
         case None => None
         case Some((raw, next)) => Join(ss + [Pieces(raw, heads[0].pageCount)], ReadStats(b, next, heads[1..]))
  {
    hide ReadRaw, Pieces;
    if ReadRaw(b, pos, heads[0].pageCount * STATS).Some? {
      var (raw, next) := ReadRaw(b, pos, heads[0].pageCount * STATS).value;
      JoinStep(ss, Pieces(raw, heads[0].pageCount), ReadStats(b, next, heads[1..]));
    }
  }

  // The statistics are kept raw per column and cut into 16-byte pieces when first used.
  method ParseStats(r: WireReader, heads: seq<Head>) returns (stats: seq<seq<seq<Byte>>>)
    requires r.Valid() && !r.failed
    modifies r
    ensures r.Valid()
    ensures match ReadStats(r.buf, old(r.pos), heads)
            case None => r.failed
            case Some((xs, next)) => stats == xs && !r.failed && r.pos == next
  {
    hide ReadRaw, Pieces;
    stats := [];
    ghost var all := ReadStats(r.buf, r.pos, heads);
    JoinNothing(all);
    assert heads[0..] == heads;
    for i := 0 to |heads|
      invariant r.Valid()
      invariant if r.failed then all == None else all == Join(stats, ReadStats(r.buf, r.pos, heads[i..]))
    {
      if !r.failed { StatsStep(r.buf, r.pos, heads[i..], stats); }
      assert heads[i..][1..] == heads[i + 1..];
      var raw := r.Raw(heads[i].pageCount * STATS);
      stats := stats + [if r.failed then [] else Pieces(raw, heads[i].pageCount)];
    }
    assert stats + [] == stats;
  }

  method ParseFooter(body: seq<Byte>) returns (cols: Option<seq<Column>>)
    ensures cols == Parsed(body)
  {
    hide FromLE, ReadHeads, ReadDir, ReadStats;
    var r := new WireReader(body);
    var colCount := r.U(4);
    if r.failed {
      return None;
    }
    if colCount > (|body| - 4) / MIN_COLUMN {
      return None;
    }
    var heads := ParseHeads(r, colCount);
    if heads.None? || r.failed {
      return None;
    }
    var dir := ParseDir(r, heads.value);
    if dir.None? {
      return None;
    }
    var stats := ParseStats(r, heads.value);
    if r.failed || r.pos != |body| {
      return None;
    }
    cols := Some(Assemble(heads.value, dir.value, stats));
  }
}
