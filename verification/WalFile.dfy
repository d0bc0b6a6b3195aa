// The write-ahead log as a file of bytes: records framed with a checksum and
// padded to whole pages, and the replay of what a torn write left behind.
module WalFile {
  import opened Options
  import opened Bytes

  const PAGE: nat := 4096
  const MAGIC: seq<Byte> := [0x44, 0x57, 0x41, 0x4c]
  const VERSION: nat := 2
  const OVERHEAD: nat := 9   // kind, length, checksum

  type Checksum = c: nat | c < U32_LIMIT

  datatype WalRecord = WalRecord(kind: Byte, payload: seq<Byte>)

  predicate Fits(r: WalRecord) {
    |r.payload| < U32_LIMIT
  }

  function RawSize(payload: nat): nat {
    payload + OVERHEAD
  }

  function PaddedSize(payload: nat): (n: nat)
    ensures RawSize(payload) <= n < RawSize(payload) + PAGE && n % PAGE == 0
  {
    var raw := RawSize(payload);
    raw + (PAGE - raw % PAGE) % PAGE
  }

  function Zeros(n: nat): (z: seq<Byte>)
    ensures |z| == n && forall i :: 0 <= i < n ==> z[i] == 0
  {
    seq(n, _ => 0)
  }

  function Body(r: WalRecord): (b: seq<Byte>)
    ensures |b| == 5 + |r.payload|
  {
    [r.kind] + LE(|r.payload|, 4) + r.payload
  }

  function Raw(crc: seq<Byte> -> Checksum, r: WalRecord): (b: seq<Byte>)
    ensures |b| == RawSize(|r.payload|)
  {
    Body(r) + LE(crc(Body(r)), 4)
  }

  function Frame(crc: seq<Byte> -> Checksum, r: WalRecord): (f: seq<Byte>)
    ensures |f| == PaddedSize(|r.payload|)
  {
    Raw(crc, r) + Zeros(PaddedSize(|r.payload|) - RawSize(|r.payload|))
  }

  function Header(): (h: seq<Byte>)
    ensures |h| == PAGE
  {
    MAGIC + LE(VERSION, 2) + Zeros(PAGE - 6)
  }

  function Frames(crc: seq<Byte> -> Checksum, rs: seq<WalRecord>): (b: seq<Byte>) {
    if rs == [] then [] else Frame(crc, rs[0]) + Frames(crc, rs[1..])
  }

  // ----- reading one frame -----

  function ReadFrame(crc: seq<Byte> -> Checksum, file: seq<Byte>, pos: nat): (r: Option<WalRecord>)
    ensures r.Some? ==> Fits(r.value) && pos + RawSize(|r.value.payload|) <= |file|
  {
    if pos + 5 > |file| then None
    else
      var len := FromLE(file[pos + 1..pos + 5]);
      Widths();
      var end := pos + 5 + len + 4;
      if end > |file| then None
      else
        var want := FromLE(file[pos + 5 + len..end]);
        if want != crc(file[pos..pos + 5 + len]) then None
        else Some(WalRecord(file[pos], file[pos + 5..pos + 5 + len]))
  }

  // A frame reads back exactly when the bytes at its position are the raw bytes of the record.
  lemma ReadFrameExact(crc: seq<Byte> -> Checksum, file: seq<Byte>, pos: nat, r: WalRecord)
    requires Fits(r)
    ensures ReadFrame(crc, file, pos) == Some(r)
      <==> pos + RawSize(|r.payload|) <= |file| && file[pos..pos + RawSize(|r.payload|)] == Raw(crc, r)
  {
    Widths();
    var n := |r.payload|;
    if pos + RawSize(n) <= |file| && file[pos..pos + RawSize(n)] == Raw(crc, r) {
      RawReads(crc, file, pos, r);
    }
    if ReadFrame(crc, file, pos) == Some(r) {
      ReadGivesRaw(crc, file, pos, r);
    }
  }

  lemma RawParts(crc: seq<Byte> -> Checksum, r: WalRecord)
    ensures var raw, n := Raw(crc, r), |r.payload|;
      && raw[0] == r.kind && raw[1..5] == LE(n, 4) && raw[5..5 + n] == r.payload
      && raw[..5 + n] == Body(r) && raw[5 + n..9 + n] == LE(crc(Body(r)), 4)
  {
    hide LE;
    var a, b, d := [r.kind], LE(|r.payload|, 4), LE(crc(Body(r)), 4);
    assert Body(r) == a + b + r.payload;
    assert Raw(crc, r) == a + b + r.payload + d;
    FourParts(a, b, r.payload, d);
  }

  lemma FourParts(a: seq<Byte>, b: seq<Byte>, c: seq<Byte>, d: seq<Byte>)
    requires |a| == 1 && |b| == 4
    ensures var s, n := a + b + c + d, |c|;
      && s[0] == a[0] && s[1..5] == b && s[5..5 + n] == c && s[..5 + n] == a + b + c && s[5 + n..5 + n + |d|] == d
  {
  }

  lemma RawReads(crc: seq<Byte> -> Checksum, file: seq<Byte>, pos: nat, r: WalRecord)
    requires Fits(r) && pos + RawSize(|r.payload|) <= |file| && file[pos..pos + RawSize(|r.payload|)] == Raw(crc, r)
    ensures ReadFrame(crc, file, pos) == Some(r)
  {
    hide LE, FromLE, Raw, Body;
    Widths();
    var n := |r.payload|;
    RawParts(crc, r);
    SliceOfSlice(file, pos, pos + 9 + n, 1, 5);
    SliceOfSlice(file, pos, pos + 9 + n, 0, 5 + n);
    SliceOfSlice(file, pos, pos + 9 + n, 5, 5 + n);
    SliceOfSlice(file, pos, pos + 9 + n, 5 + n, 9 + n);
    FromLEOfLE(n, 4);
    FromLEOfLE(crc(Body(r)), 4);
    assert file[pos] == file[pos..pos + 9 + n][0];
  }

  lemma ReadGivesRaw(crc: seq<Byte> -> Checksum, file: seq<Byte>, pos: nat, r: WalRecord)
    requires Fits(r) && ReadFrame(crc, file, pos) == Some(r)
    ensures pos + RawSize(|r.payload|) <= |file| && file[pos..pos + RawSize(|r.payload|)] == Raw(crc, r)
  {
    hide LE, FromLE;
    var n := |r.payload|;
    LEOfFromLE(file[pos + 1..pos + 5]);
    LEOfFromLE(file[pos + 5 + n..pos + 9 + n]);
    assert file[pos..pos + 5 + n] == [file[pos]] + file[pos + 1..pos + 5] + file[pos + 5..pos + 5 + n] == Body(r);
    assert file[pos..pos + 9 + n] == file[pos..pos + 5 + n] + file[pos + 5 + n..pos + 9 + n];
  }

  // A record whose frame is cut short does not read.
  lemma TornFrame(crc: seq<Byte> -> Checksum, file: seq<Byte>, pos: nat, r: WalRecord)
    requires Fits(r) && pos <= |file| < pos + RawSize(|r.payload|)
    requires file[pos..] == Raw(crc, r)[..|file| - pos]
    ensures ReadFrame(crc, file, pos) == None
  {
    hide LE, FromLE, Raw, Body;
    if pos + 5 <= |file| {
      Widths();
      RawParts(crc, r);
      SliceOfSlice(file, pos, |file|, 1, 5);
      assert file[pos..] == file[pos..|file|];
      SliceOfSlice(Raw(crc, r), 0, |file| - pos, 1, 5);
      FromLEOfLE(|r.payload|, 4);
    }
  }

  // ----- the records a file holds -----

  function Parse(crc: seq<Byte> -> Checksum, file: seq<Byte>, pos: nat): (rs: seq<WalRecord>)
    decreases |file| - pos
  {
    if pos >= |file| then []
    else
      match ReadFrame(crc, file, pos)
      case None => []
      case Some(r) => [r] + Parse(crc, file, pos + PaddedSize(|r.payload|))
  }

  // Where the last good frame ends; past the end of the file when only its padding is missing.
  function ParseEnd(crc: seq<Byte> -> Checksum, file: seq<Byte>, pos: nat): (end: nat)
    ensures end >= pos
    decreases |file| - pos
  {
    if pos >= |file| then pos
    else
      match ReadFrame(crc, file, pos)
      case None => pos
      case Some(r) => ParseEnd(crc, file, pos + PaddedSize(|r.payload|))
  }

  // How many leading records have all their bytes among the first `avail`.
  function Complete(rs: seq<WalRecord>, avail: int): (k: nat)
    ensures k <= |rs|
  {
    if rs == [] || RawSize(|rs[0].payload|) > avail then 0
    else 1 + Complete(rs[1..], avail - PaddedSize(|rs[0].payload|))
  }

  function SizeOf(rs: seq<WalRecord>): (n: nat)
    ensures n % PAGE == 0
  {
    if rs == [] then 0 else PaddedSize(|rs[0].payload|) + SizeOf(rs[1..])
  }

  // Complete counts the longest prefix whose frames are whole, padding aside.
  lemma PrefixSize(rs: seq<WalRecord>, j: nat)
    requires 0 < j <= |rs|
    ensures SizeOf(rs[..j]) == PaddedSize(|rs[0].payload|) + SizeOf(rs[1..][..j - 1])
  {
    hide PaddedSize;
    assert rs[..j][1..] == rs[1..][..j - 1];
  }

  lemma {:induction false} CompleteIsLongest(rs: seq<WalRecord>, avail: int)
    ensures forall j :: 0 <= j < Complete(rs, avail) ==> SizeOf(rs[..j]) + RawSize(|rs[j].payload|) <= avail
    ensures var k := Complete(rs, avail); k < |rs| ==> SizeOf(rs[..k]) + RawSize(|rs[k].payload|) > avail
  {
    hide PaddedSize, RawSize;
    var k := Complete(rs, avail);
    if rs != [] && k > 0 {
      var step := PaddedSize(|rs[0].payload|);
      CompleteIsLongest(rs[1..], avail - step);
      assert k == 1 + Complete(rs[1..], avail - step) && RawSize(|rs[0].payload|) <= avail;
      assert rs[..0] == [] && SizeOf([]) == 0;
      hide SizeOf, Complete;
      forall j | 0 <= j < k ensures SizeOf(rs[..j]) + RawSize(|rs[j].payload|) <= avail {
        if j > 0 {
          PrefixSize(rs, j);
          assert rs[j] == rs[1..][j - 1];
        }
      }
      if k < |rs| {
        PrefixSize(rs, k);
        assert rs[k] == rs[1..][k - 1];
      }
    } else {
      assert rs[..0] == [];
    }
  }

  lemma ParseGoesOn(crc: seq<Byte> -> Checksum, file: seq<Byte>, pos: nat, r: WalRecord)
    requires Fits(r) && pos + RawSize(|r.payload|) <= |file| && file[pos..pos + RawSize(|r.payload|)] == Raw(crc, r)
    ensures Parse(crc, file, pos) == [r] + Parse(crc, file, pos + PaddedSize(|r.payload|))
    ensures ParseEnd(crc, file, pos) == ParseEnd(crc, file, pos + PaddedSize(|r.payload|))
  {
    hide Raw, ReadFrame, PaddedSize;
    ReadFrameExact(crc, file, pos, r);
  }

  lemma ParseStops(crc: seq<Byte> -> Checksum, file: seq<Byte>, pos: nat, r: WalRecord)
    requires Fits(r) && pos <= |file| < pos + RawSize(|r.payload|)
    requires file[pos..] == Raw(crc, r)[..|file| - pos]
    ensures Parse(crc, file, pos) == [] && ParseEnd(crc, file, pos) == pos
  {
    hide Raw, ReadFrame;
    TornFrame(crc, file, pos, r);
  }

  lemma MiddlePrefix(head: seq<Byte>, f: seq<Byte>, rest: seq<Byte>, m: nat, len: nat)
    requires len <= |f| && |head| + len <= m <= |head + f + rest|
    ensures (head + f + rest)[..m][|head|..|head| + len] == f[..len]
  {
  }

  lemma FrameStarts(crc: seq<Byte> -> Checksum, r: WalRecord, len: nat)
    requires len <= RawSize(|r.payload|)
    ensures Frame(crc, r)[..len] == Raw(crc, r)[..len]
  {
    hide Raw;
  }

  // Reading any prefix of a written log gives back exactly the records whose
  // frames are complete in it.
  lemma {:induction false} ParsePrefix(crc: seq<Byte> -> Checksum, head: seq<Byte>, rs: seq<WalRecord>, m: nat)
    requires forall r :: r in rs ==> Fits(r)
    requires m <= |head + Frames(crc, rs)|
    ensures var file := (head + Frames(crc, rs))[..m];
      && Parse(crc, file, |head|) == rs[..Complete(rs, m - |head|)]
      && ParseEnd(crc, file, |head|) == |head| + SizeOf(rs[..Complete(rs, m - |head|)])
    decreases |rs|
  {
    hide Raw, Frame, ReadFrame, Fits, PaddedSize, Parse, ParseEnd;
    var log := head + Frames(crc, rs);
    var file := log[..m];
    if rs == [] || m <= |head| {
      assert rs[..0] == [];
      PastTheEnd(crc, file, |head|);
    } else {
      var r, f, n := rs[0], Frame(crc, rs[0]), |rs[0].payload|;
      assert r in rs;
      assert log == head + f + Frames(crc, rs[1..]);
      if RawSize(n) > m - |head| {
        MiddlePrefix(head, f, Frames(crc, rs[1..]), m, m - |head|);
        FrameStarts(crc, r, m - |head|);
        assert file[|head|..] == file[|head|..|head| + (m - |head|)];
        ParseStops(crc, file, |head|, r);
        assert rs[..0] == [];
      } else {
        MiddlePrefix(head, f, Frames(crc, rs[1..]), m, RawSize(n));
        FrameStarts(crc, r, RawSize(n));
        assert Raw(crc, r)[..RawSize(n)] == Raw(crc, r);
        ParseGoesOn(crc, file, |head|, r);
        ParsePrefix(crc, head + f, rs[1..], m);
        var k := Complete(rs[1..], m - |head + f|);
        assert rs[..k + 1] == [r] + rs[1..][..k];
        assert rs[..k + 1][1..] == rs[1..][..k];
      }
    }
  }

  lemma PastTheEnd(crc: seq<Byte> -> Checksum, file: seq<Byte>, pos: nat)
    requires pos >= |file|
    ensures Parse(crc, file, pos) == [] && ParseEnd(crc, file, pos) == pos
  {
  }

  // ----- opening the file -----

  datatype Opened = Records(rs: seq<WalRecord>) | BadMagic | BadVersion

  // What opening a file returns, and what it leaves in it.
  function Reopen(crc: seq<Byte> -> Checksum, file: seq<Byte>): (Opened, seq<Byte>) {
    if |file| == 0 then (Records([]), Header())
    else if |file| < PAGE then (Records([]), [])
    else if file[..4] != MAGIC then (BadMagic, file)
    else if FromLE(file[4..6]) != VERSION then (BadVersion, file)
    else
      var end := ParseEnd(crc, file, PAGE);
      (Records(Parse(crc, file, PAGE)), if end < |file| then file[..end] else file)
  }

  class WAL {
    const crc: seq<Byte> -> Checksum
    var file: seq<Byte>
    var size: nat

    ghost predicate Valid()
      reads this
    {
      size == |file|
    }

    constructor (crc: seq<Byte> -> Checksum, file: seq<Byte>)
      ensures Valid() && this.crc == crc && this.file == file
    {
      this.crc, this.file, size := crc, file, |file|;
    }

    // The offset after the record, or nothing when the payload is too large for its length field.
    method Append(r: WalRecord) returns (lsn: Option<nat>)
      requires Valid()
      modifies this
      ensures Valid() && file == if Fits(r) then old(file) + Frame(crc, r) else old(file)
      ensures lsn == if Fits(r) then Some(size) else None
    {
      if |r.payload| >= U32_LIMIT {
        return None;
      }
      var padded := PaddedSize(|r.payload|);
      var body := [r.kind] + LE(|r.payload|, 4) + r.payload;
      var buf := body + LE(crc(body), 4);
      file := file + (buf + Zeros(padded - |buf|));
      size := size + padded;
      lsn := Some(size);
    }

    method Truncate(to: nat)
      modifies this
      ensures Valid() && file == if to <= |old(file)| then old(file)[..to] else old(file) + Zeros(to - |old(file)|)
    {
      file := if to <= |file| then file[..to] else file + Zeros(to - |file|);
      size := to;
    }

    // Frames are read up to the first bad one, which is cut off.
    method ReadFrames() returns (records: seq<WalRecord>)
      requires Valid() && size >= PAGE
      modifies this
      ensures Valid() && records == Parse(crc, old(file), PAGE)
      ensures var end := ParseEnd(crc, old(file), PAGE);
        file == if end < |old(file)| then old(file)[..end] else old(file)
    {
      hide ReadFrame, PaddedSize;
      var pos := PAGE;
      records := [];
      while pos < size
        invariant Valid() && file == old(file)
        invariant Parse(crc, file, PAGE) == records + Parse(crc, file, pos)
        invariant ParseEnd(crc, file, PAGE) == ParseEnd(crc, file, pos)
        decreases size - pos
      {
        var rec := ReadFrame(crc, file, pos);
        if rec.None? {
          Truncate(pos);
          break;
        }
        records := records + [rec.value];
        pos := pos + PaddedSize(|rec.value.payload|);
      }
    }

    method Replay() returns (o: Opened)
      modifies this
      ensures Valid() && (o, file) == Reopen(crc, old(file))
    {
      hide Header, FromLE, Parse, ParseEnd;
      size := |file|;
      if size == 0 {
        file, size := Header(), PAGE;
        return Records([]);
      }
      if size < PAGE {
        Truncate(0);
        return Records([]);
      }
      if file[..4] != MAGIC {
        return BadMagic;
      }
      if FromLE(file[4..6]) != VERSION {
        return BadVersion;
      }
      var records := ReadFrames();
      o := Records(records);
    }

    // Drops every record.
    method TruncateToHeader()
      requires Valid()
      modifies this
      ensures Valid() && |file| == PAGE
      ensures file == if PAGE <= |old(file)| then old(file)[..PAGE] else old(file) + Zeros(PAGE - |old(file)|)
    {
      if size == PAGE {
        return;
      }
      Truncate(PAGE);
    }
  }

  // ----- replay after a torn write -----

  lemma HeaderReads(file: seq<Byte>)
    requires |file| >= PAGE && file[..PAGE] == Header()
    ensures file[..4] == MAGIC && FromLE(file[4..6]) == VERSION
  {
    Widths();
    FromLEOfLE(VERSION, 2);
    assert file[..4] == file[..PAGE][..4];
    assert file[4..6] == file[..PAGE][4..6];
  }

  // Opening any prefix of a log that still has its header returns the longest
  // prefix of records whose frames are complete, and cuts off what follows them.
  lemma TornLogReplays(crc: seq<Byte> -> Checksum, rs: seq<WalRecord>, m: nat)
    requires forall r :: r in rs ==> Fits(r)
    requires PAGE <= m <= |Header() + Frames(crc, rs)|
    ensures var log := Header() + Frames(crc, rs);
      var k := Complete(rs, m - PAGE);
      var end := PAGE + SizeOf(rs[..k]);
      Reopen(crc, log[..m]) == (Records(rs[..k]), log[..if end < m then end else m])
  {
    hide Header, Frames, Complete, SizeOf, Parse, ParseEnd, Fits;
    var log := Header() + Frames(crc, rs);
    var k := Complete(rs, m - PAGE);
    ParsePrefix(crc, Header(), rs, m);
    assert log[..m][..PAGE] == Header();
    HeaderReads(log[..m]);
    var end := PAGE + SizeOf(rs[..k]);
    if end < m { assert log[..m][..end] == log[..end]; }
  }

  lemma {:induction false} FramesAppend(crc: seq<Byte> -> Checksum, rs: seq<WalRecord>, r: WalRecord)
    ensures Frames(crc, rs + [r]) == Frames(crc, rs) + Frame(crc, r)
  {
    hide Frame;
    if rs == [] {
      assert [r][1..] == [];
    } else {
      FramesAppend(crc, rs[1..], r);
      assert (rs + [r])[1..] == rs[1..] + [r];
    }
  }

  lemma {:induction false} FramesPrefix(crc: seq<Byte> -> Checksum, rs: seq<WalRecord>, k: nat)
    requires k <= |rs|
    ensures |Frames(crc, rs[..k])| == SizeOf(rs[..k]) <= |Frames(crc, rs)|
    ensures Frames(crc, rs)[..SizeOf(rs[..k])] == Frames(crc, rs[..k])
  {
    hide Frame;
    if k > 0 {
      FramesPrefix(crc, rs[1..], k - 1);
      assert rs[..k][1..] == rs[1..][..k - 1];
    }
  }

  lemma {:induction false} AllComplete(rs: seq<WalRecord>)
    ensures Complete(rs, SizeOf(rs)) == |rs|
  {
    hide PaddedSize;
    if rs != [] { AllComplete(rs[1..]); }
  }

  lemma WholeLogReplays(crc: seq<Byte> -> Checksum, rs: seq<WalRecord>)
    requires forall r :: r in rs ==> Fits(r)
    ensures Reopen(crc, Header() + Frames(crc, rs)) == (Records(rs), Header() + Frames(crc, rs))
  {
    hide Header, Frames, Reopen;
    var log := Header() + Frames(crc, rs);
    FramesPrefix(crc, rs, |rs|);
    assert rs[..|rs|] == rs && log[..|log|] == log;
    AllComplete(rs);
    TornLogReplays(crc, rs, |log|);
  }

  lemma ReadExtends(crc: seq<Byte> -> Checksum, file: seq<Byte>, extra: seq<Byte>, pos: nat)
    requires ReadFrame(crc, file, pos).Some?
    ensures ReadFrame(crc, file + extra, pos) == ReadFrame(crc, file, pos)
  {
    hide Raw, ReadFrame;
    var r := ReadFrame(crc, file, pos).value;
    ReadFrameExact(crc, file, pos, r);
    ReadFrameExact(crc, file + extra, pos, r);
    assert (file + extra)[pos..pos + RawSize(|r.payload|)] == file[pos..pos + RawSize(|r.payload|)];
  }

  // Bytes added behind a file whose last good frame reaches its end do not
  // change what was read before them.
  lemma {:induction false} ParseExtends(crc: seq<Byte> -> Checksum, file: seq<Byte>, extra: seq<Byte>, pos: nat)
    requires ParseEnd(crc, file, pos) >= |file|
    ensures Parse(crc, file + extra, pos) == Parse(crc, file, pos) + Parse(crc, file + extra, ParseEnd(crc, file, pos))
    decreases |file| - pos
  {
    hide ReadFrame, PaddedSize;
    if pos < |file| {
      ReadExtends(crc, file, extra, pos);
      ParseExtends(crc, file, extra, pos + PaddedSize(|ReadFrame(crc, file, pos).value.payload|));
    }
  }

  // A frame that reads back at an offset inside itself is all zeros.
  lemma {:induction false} SelfOverlap(f: seq<Byte>, raw: nat, g: nat, i: nat)
    requires 0 < g && g + raw <= |f| && i <= |f|
    requires f[g..g + raw] == f[..raw]
    requires forall j :: raw <= j < |f| ==> f[j] == 0
    ensures forall j :: i <= j < |f| ==> f[j] == 0
    decreases |f| - i
  {
    if i < raw {
      SelfOverlap(f, raw, g, i + 1);
      assert f[i] == f[..raw][i] == f[g..g + raw][i] == f[g + i];
    }
  }

  lemma {:induction false} ZerosAreZero(s: seq<Byte>)
    requires forall j :: 0 <= j < |s| ==> s[j] == 0
    ensures FromLE(s) == 0
  {
    if s != [] { ZerosAreZero(s[1..]); }
  }

  lemma NoOverlap(crc: seq<Byte> -> Checksum, r: WalRecord, g: nat)
    requires Fits(r) && 0 < g && g + RawSize(|r.payload|) <= |Frame(crc, r)|
    requires crc([0, 0, 0, 0, 0]) != 0
    ensures Frame(crc, r)[g..g + RawSize(|r.payload|)] != Raw(crc, r)
  {
    hide LE, FromLE, PaddedSize;
    var f, raw := Frame(crc, r), RawSize(|r.payload|);
    assert f[..raw] == Raw(crc, r);
    if f[g..g + raw] == f[..raw] {
      SelfOverlap(f, raw, g, 0);
      assert forall j :: 0 <= j < raw ==> Raw(crc, r)[j] == 0;
      Widths();
      assert LE(|r.payload|, 4) == f[1..5];
      ZerosAreZero(LE(|r.payload|, 4));
      FromLEOfLE(|r.payload|, 4);
      assert Body(r) == f[..5] == [0, 0, 0, 0, 0];
      assert LE(crc(Body(r)), 4) == f[5..9];
      ZerosAreZero(LE(crc(Body(r)), 4));
      FromLEOfLE(crc(Body(r)), 4);
    }
  }

  // After a torn write the next record appended survives the next replay
  // exactly when the cut did not fall into the padding of a complete frame: the
  // file is then a whole number of pages, which is where replay looks for frames.
  lemma AppendAfterTear(crc: seq<Byte> -> Checksum, rs: seq<WalRecord>, m: nat, r: WalRecord)
    requires (forall q :: q in rs ==> Fits(q)) && Fits(r) && crc([0, 0, 0, 0, 0]) != 0
    requires PAGE <= m <= |Header() + Frames(crc, rs)|
    ensures var left := Reopen(crc, (Header() + Frames(crc, rs))[..m]).1;
      var k := Complete(rs, m - PAGE);
      && (Reopen(crc, left + Frame(crc, r)).0 == Records(rs[..k] + [r]) <==> |left| % PAGE == 0)
      && (|left| % PAGE == 0 <==> PAGE + SizeOf(rs[..k]) <= m)
  {
    hide Header, Frames, Frame, Complete, SizeOf, Parse, ParseEnd, Reopen, Raw;
    var log := Header() + Frames(crc, rs);
    var k := Complete(rs, m - PAGE);
    var end := PAGE + SizeOf(rs[..k]);
    TornLogReplays(crc, rs, m);
    FramesPrefix(crc, rs, k);
    if end <= m {
      assert log[..end] == Header() + Frames(crc, rs[..k]);
      FramesAppend(crc, rs[..k], r);
      assert log[..end] + Frame(crc, r) == Header() + Frames(crc, rs[..k] + [r]);
      WholeLogReplays(crc, rs[..k] + [r]);
    } else {
      LostAppend(crc, rs, m, r);
    }
  }

  // What replay reads of a frame appended off the page grid: it looks for it where the padding would have ended.
  lemma AppendOffGrid(crc: seq<Byte> -> Checksum, rs: seq<WalRecord>, m: nat, r: WalRecord)
    requires forall q :: q in rs ==> Fits(q)
    requires PAGE <= m <= |Header() + Frames(crc, rs)|
    requires m < PAGE + SizeOf(rs[..Complete(rs, m - PAGE)])
    ensures m % PAGE != 0
    ensures var k, file := Complete(rs, m - PAGE), (Header() + Frames(crc, rs))[..m] + Frame(crc, r);
      Reopen(crc, file).0 == Records(rs[..k] + Parse(crc, file, PAGE + SizeOf(rs[..k])))
  {
    hide Header, Frames, Frame, Complete, SizeOf, ReadFrame, Raw, PaddedSize;
    var log := Header() + Frames(crc, rs);
    var file, f := log[..m], Frame(crc, r);
    ParsePrefix(crc, Header(), rs, m);
    ParseExtends(crc, file, f, PAGE);
    assert (file + f)[..PAGE] == Header();
    ReopenReads(crc, file + f);
    CutInPadding(rs, m - PAGE);
  }

  lemma LostAppend(crc: seq<Byte> -> Checksum, rs: seq<WalRecord>, m: nat, r: WalRecord)
    requires (forall q :: q in rs ==> Fits(q)) && Fits(r) && crc([0, 0, 0, 0, 0]) != 0
    requires PAGE <= m <= |Header() + Frames(crc, rs)|
    requires m < PAGE + SizeOf(rs[..Complete(rs, m - PAGE)])
    ensures m % PAGE != 0
    ensures Reopen(crc, (Header() + Frames(crc, rs))[..m] + Frame(crc, r)).0 != Records(rs[..Complete(rs, m - PAGE)] + [r])
  {
    hide Header, Frames, Frame, Complete, SizeOf, ReadFrame, Raw, PaddedSize, Parse, ParseEnd, Reopen;
    var file, f := (Header() + Frames(crc, rs))[..m], Frame(crc, r);
    var k := Complete(rs, m - PAGE);
    var end := PAGE + SizeOf(rs[..k]);
    AppendOffGrid(crc, rs, m, r);
    CutInPadding(rs, m - PAGE);
    if Parse(crc, file + f, end) == [r] {
      LoneParse(crc, file + f, end, r);
      OverlapInFrame(file, f, end, RawSize(|r.payload|));
      NoOverlap(crc, r, end - m);
    }
    SameTail(rs[..k], Parse(crc, file + f, end), [r]);
  }

  // When the bytes there are no frame, the record is not seen at all.
  lemma UnseenAppend(crc: seq<Byte> -> Checksum, rs: seq<WalRecord>, m: nat, r: WalRecord)
    requires forall q :: q in rs ==> Fits(q)
    requires PAGE <= m <= |Header() + Frames(crc, rs)|
    requires m < PAGE + SizeOf(rs[..Complete(rs, m - PAGE)])
    requires ReadFrame(crc, (Header() + Frames(crc, rs))[..m] + Frame(crc, r), PAGE + SizeOf(rs[..Complete(rs, m - PAGE)])).None?
    ensures Reopen(crc, (Header() + Frames(crc, rs))[..m] + Frame(crc, r)).0 == Records(rs[..Complete(rs, m - PAGE)])
  {
    hide Header, Frames, Frame, Complete, SizeOf, ReadFrame, Reopen;
    AppendOffGrid(crc, rs, m, r);
    var k := Complete(rs, m - PAGE);
    assert rs[..k] + [] == rs[..k];
  }

  lemma SameTail(a: seq<WalRecord>, b: seq<WalRecord>, c: seq<WalRecord>)
    requires b != c
    ensures a + b != a + c
  {
    assert (a + b)[|a|..] == b && (a + c)[|a|..] == c;
  }

  lemma ReopenReads(crc: seq<Byte> -> Checksum, file: seq<Byte>)
    requires |file| >= PAGE && file[..PAGE] == Header()
    ensures Reopen(crc, file).0 == Records(Parse(crc, file, PAGE))
  {
    HeaderReads(file);
  }

  lemma LoneParse(crc: seq<Byte> -> Checksum, file: seq<Byte>, pos: nat, r: WalRecord)
    requires Fits(r) && Parse(crc, file, pos) == [r]
    ensures pos + RawSize(|r.payload|) <= |file| && file[pos..pos + RawSize(|r.payload|)] == Raw(crc, r)
  {
    hide ReadFrame, Raw;
    assert ReadFrame(crc, file, pos).value == [r][0];
    ReadFrameExact(crc, file, pos, r);
  }

  lemma OverlapInFrame(file: seq<Byte>, f: seq<Byte>, end: nat, raw: nat)
    requires |file| <= end && end + raw <= |file + f|
    ensures (file + f)[end..end + raw] == f[end - |file|..end - |file| + raw]
  {
  }

  lemma BetweenPages(a: int, pages: nat)
    requires pages % PAGE == 0 && pages - PAGE < a < pages
    ensures a % PAGE != 0
  {
  }

  // A file shorter than its last complete frame is cut less than a page before its end.
  lemma CutInPadding(rs: seq<WalRecord>, avail: nat)
    requires avail < SizeOf(rs[..Complete(rs, avail)])
    ensures avail % PAGE != 0 && (avail + PAGE) % PAGE != 0
  {
    hide PaddedSize, Complete, SizeOf;
    var k := Complete(rs, avail);
    CompleteIsLongest(rs, avail);
    SizeOfNothing(rs[..k]);
    assert rs[..k][..k - 1] == rs[..k - 1];
    SizeOfLast(rs[..k]);
    BetweenPages(avail, SizeOf(rs[..k]));
    BetweenPages(avail + PAGE, SizeOf(rs[..k]) + PAGE);
  }

  lemma SizeOfNothing(rs: seq<WalRecord>)
    ensures SizeOf(rs) > 0 ==> rs != []
  {
  }

  lemma {:induction false} SizeOfLast(rs: seq<WalRecord>)
    requires rs != []
    ensures SizeOf(rs) == SizeOf(rs[..|rs| - 1]) + PaddedSize(|rs[|rs| - 1].payload|)
  {
    hide PaddedSize;
    if |rs| > 1 {
      SizeOfLast(rs[1..]);
      assert rs[1..][..|rs| - 2] == rs[..|rs| - 1][1..];
    } else {
      assert rs[1..] == [];
    }
  }

  // A header cut short is dropped without being rewritten, so whatever record is
  // appended next makes the following open fail, unless its kind byte is the
  // first byte of the magic; the engine's kinds are 1, 2 and 3.
  lemma TornHeaderSpoilsNextOpen(crc: seq<Byte> -> Checksum, cut: nat, r: WalRecord)
    requires 0 < cut < PAGE && Fits(r) && r.kind != MAGIC[0]
    ensures var left := Reopen(crc, Header()[..cut]).1;
      Reopen(crc, left + Frame(crc, r)).0 == BadMagic
  {
    hide PaddedSize, LE;
    var f := [] + Frame(crc, r);
    assert f[0] == r.kind;
    assert f[..4][0] != MAGIC[0];
  }
}
