// The manifest object of one table, and snapshots over whole runs of a database.
module TimeTravel {
  import opened Options
  import opened Manifest
  import opened SegmentNames

  // The reference view of a log at a timestamp.
  function ViewAt(log: seq<Record>, maxTs: nat): (view: seq<ViewEntry>) {
    Fold(Visible(log, Top(log), maxTs))
  }

  function Committed(commitTs: nat, adds: seq<SegmentAdd>, dvUpdates: seq<DVUpdate>): Record {
    Record(0, commitTs, "", 0, "", adds, dvUpdates, [])
  }

  function Retired(commitTs: nat, paths: seq<string>): Record {
    Record(0, commitTs, "", 0, "", [], [], paths)
  }

  function Appended(log: seq<Record>, r: Record): (log': seq<Record>)
  {
    log + [r.(version := Top(log) + 1)]
  }

  class ManifestFile {
    var records: seq<Record>
    var version: nat

    ghost predicate Valid()
      reads this
    {
      version == Top(records)
    }

    // Opening: lines are read up to the first one that does not parse.
    constructor Load(lines: seq<Option<Record>>)
      ensures Valid()
      ensures |records| <= |lines| && forall i :: 0 <= i < |records| ==> lines[i] == Some(records[i])
      ensures |records| < |lines| ==> lines[|records|].None?
    {
      var good: seq<Record> := [];
      var top := 0;
      while |good| < |lines| && lines[|good|].Some?
        invariant |good| <= |lines| && top == Top(good)
        invariant forall i :: 0 <= i < |good| ==> lines[i] == Some(good[i])
        decreases |lines| - |good|
      {
        var r := lines[|good|].value;
        assert (good + [r])[..|good|] == good;
        good := good + [r];
        if r.version > top {
          top := r.version;
        }
      }
      records, version := good, top;
    }

    method AppendRecord(r: Record)
      requires Valid()
      modifies this
      ensures Valid() && records == Appended(old(records), r)
    {
      var entry := r.(version := version + 1);
      assert (records + [entry])[..|records|] == records;
      version := version + 1;
      records := records + [entry];
    }

    // One atomic record that publishes segments and deletion vectors; nothing to publish writes nothing.
    method Commit(commitTs: nat, adds: seq<SegmentAdd>, dvUpdates: seq<DVUpdate>)
      requires Valid()
      modifies this
      ensures Valid()
      ensures records == if |adds| == 0 && |dvUpdates| == 0 then old(records)
                         else Appended(old(records), Committed(commitTs, adds, dvUpdates))
      ensures |adds| + |dvUpdates| > 0 ==> records == old(records) + [Record(old(version) + 1, commitTs, "", 0, "", adds, dvUpdates, [])]
    {
      if |adds| == 0 && |dvUpdates| == 0 {
        return;
      }
      AppendRecord(Committed(commitTs, adds, dvUpdates));
    }

    method Retire(commitTs: nat, paths: seq<string>)
      requires Valid()
      modifies this
      ensures Valid()
      ensures records == if |paths| == 0 then old(records) else Appended(old(records), Retired(commitTs, paths))
      ensures |paths| > 0 ==> records == old(records) + [Record(old(version) + 1, commitTs, "", 0, "", [], [], paths)]
    {
      if |paths| == 0 {
        return;
      }
      AppendRecord(Retired(commitTs, paths));
    }

    method Snapshot() returns (view: seq<ViewEntry>)
      requires Valid()
      ensures view == ViewAt(records, MAX_TS)
    {
      view := Resolve(records, version, MAX_TS);
    }

    method SnapshotAt(maxTs: nat) returns (view: seq<ViewEntry>)
      requires Valid()
      ensures view == ViewAt(records, maxTs)
    {
      view := Resolve(records, version, maxTs);
    }

    method At(v: nat) returns (view: seq<ViewEntry>)
      requires Valid()
      ensures view == Fold(Visible(records, v, MAX_TS))
    {
      var clamped := if v < version then v else version;
      if v >= version {
        ReachedBeyond(records, v);
        VisibleBeyond(records, v, version, MAX_TS);
      }
      view := Resolve(records, clamped, MAX_TS);
    }

    method MaxCommitTs() returns (ts: nat)
      ensures forall i :: 0 <= i < |records| ==> records[i].commitTs <= ts
      ensures ts == 0 || exists i :: 0 <= i < |records| && records[i].commitTs == ts
    {
      ts := 0;
      for i := 0 to |records|
        invariant forall j :: 0 <= j < i ==> records[j].commitTs <= ts
        invariant ts == 0 || exists j :: 0 <= j < i && records[j].commitTs == ts
      {
        if records[i].commitTs > ts {
          ts := records[i].commitTs;
        }
      }
    }

    // The segment counter a reopened table starts from: past every number in its current view.
    method NextSegmentId() returns (next: nat)
      requires Valid()
      ensures IsNextId(ViewAt(records, MAX_TS), next)
    {
      hide IsNextId, SegmentId;
      var view := Snapshot();
      next := 0;
      NothingIsNextId();
      assert view[..0] == [];
      for i := 0 to |view|
        invariant IsNextId(view[..i], next)
      {
        var id := SegmentId(view[i].path);
        NextIdStep(view[..i], view[i], next);
        assert view[..i + 1] == view[..i] + [view[i]];
        if id.Some? && id.value >= next {
          next := id.value + 1;
        }
      }
      assert view[..|view|] == view;
    }
  }

  lemma ReachedBeyond(log: seq<Record>, v: nat)
    requires Top(log) <= v
    ensures Reached(log, v)
  {
  }

  ghost predicate IsNextId(view: seq<ViewEntry>, next: nat) {
    && (forall i :: 0 <= i < |view| && SegmentId(view[i].path).Some? ==> SegmentId(view[i].path).value < next)
    && (next == 0 || exists i :: 0 <= i < |view| && SegmentId(view[i].path) == Some((next - 1) as nat))
  }

  lemma NothingIsNextId()
    ensures IsNextId([], 0)
  {
  }

  lemma NextIdStep(view: seq<ViewEntry>, e: ViewEntry, next: nat)
    requires IsNextId(view, next)
    ensures IsNextId(view + [e], if SegmentId(e.path).Some? && SegmentId(e.path).value >= next then SegmentId(e.path).value + 1 else next)
  {
    hide SegmentId;
    if SegmentId(e.path).Some? && SegmentId(e.path).value >= next {
      assert (view + [e])[|view|] == e;
    } else if next > 0 {
      var i :| 0 <= i < |view| && SegmentId(view[i].path) == Some((next - 1) as nat);
      assert (view + [e])[i] == view[i];
    }
  }

  // What a new record adds to what is visible.
  lemma AppendedVisible(log: seq<Record>, r: Record, maxTs: nat)
    ensures Visible(Appended(log, r), Top(Appended(log, r)), maxTs)
      == if r.commitTs <= maxTs then Visible(log, Top(log), maxTs) + EventsOf(r.(version := Top(log) + 1)) else Visible(log, Top(log), maxTs)
  {
    hide Visible, EventsOf;
    var log' := Appended(log, r);
    assert log'[..|log|] == log;
    assert Top(log') == Top(log) + 1;
    VisibleStep(log, r.(version := Top(log) + 1), Top(log'), maxTs);
    ReachedBeyond(log, Top(log'));
    VisibleBeyond(log, Top(log'), Top(log), maxTs);
  }

  // A record stamped after ts does not change the view at ts.
  lemma LaterRecordInvisible(log: seq<Record>, r: Record, maxTs: nat)
    requires maxTs < r.commitTs
    ensures ViewAt(Appended(log, r), maxTs) == ViewAt(log, maxTs)
  {
    AppendedVisible(log, r, maxTs);
  }

  // A version once reached keeps its view for good.
  lemma VersionIsStable(log: seq<Record>, r: Record, v: nat)
    requires v <= Top(log)
    ensures Fold(Visible(Appended(log, r), v, MAX_TS)) == Fold(Visible(log, v, MAX_TS))
  {
    var last := r.(version := Top(log) + 1);
    VisibleStep(log, last, v, MAX_TS);
    assert (log + [last])[|log|].version > v;
  }

  // ----- whole runs: several tables, one commit counter -----

  // next is the segment counter; drawn are the numbers handed out and not committed yet.
  datatype Table = Table(log: seq<Record>, next: nat, drawn: set<nat>)

  datatype Store = Store(tables: map<string, Table>, counter: nat)

  // Draw hands the path of a new segment to a statement, which writes the file
  // and later commits it, drops it, or is lost in a reopen.
  datatype Action =
    | Draw(table: string)
    | DoCommit(table: string, adds: seq<SegmentAdd>, dvUpdates: seq<DVUpdate>)
    | DoRetire(table: string, paths: seq<string>)
    | FailedCommit
    | CreateTable(table: string)
    | Reopen

  predicate Recorded(s: Store, ts: nat) {
    exists t, i :: t in s.tables && 0 <= i < |s.tables[t].log| && s.tables[t].log[i].commitTs == ts
  }

  // The counter a reopened database starts from: the largest recorded timestamp.
  ghost predicate IsMaxRecorded(s: Store, ts: nat) {
    && (forall t, i :: t in s.tables && 0 <= i < |s.tables[t].log| ==> s.tables[t].log[i].commitTs <= ts)
    && (ts == 0 || Recorded(s, ts))
  }

  function IdsOf(adds: seq<SegmentAdd>): (ids: set<nat>) {
    set k | 0 <= k < |adds| && SegmentId(adds[k].path).Some? :: SegmentId(adds[k].path).value
  }

  // The segments added are files whose numbers have been drawn, each once.
  predicate AreDrawn(adds: seq<SegmentAdd>, drawn: set<nat>) {
    && (forall k :: 0 <= k < |adds| ==> SegmentId(adds[k].path).Some? && SegmentId(adds[k].path).value in drawn)
    && (forall j, k :: 0 <= j < k < |adds| ==> SegmentId(adds[j].path) != SegmentId(adds[k].path))
  }

  ghost predicate Step(s: Store, a: Action, s': Store) {
    match a
    case Draw(t) =>
      && t in s.tables
      && (var b := s.tables[t]; s' == s.(tables := s.tables[t := b.(next := b.next + 1, drawn := b.drawn + {b.next})]))
    case DoCommit(t, adds, dvs) =>
      && t in s.tables && AreDrawn(adds, s.tables[t].drawn)
      && s'.counter == s.counter + 1
      && (var b := s.tables[t];
          s'.tables == if |adds| == 0 && |dvs| == 0 then s.tables
                       else s.tables[t := b.(log := Appended(b.log, Committed(s'.counter, adds, dvs)), drawn := b.drawn - IdsOf(adds))])
    case DoRetire(t, paths) =>
      && t in s.tables
      && (var b := s.tables[t];
          if |paths| == 0 then s' == s
          else s'.counter == s.counter + 1 && s'.tables == s.tables[t := b.(log := Appended(b.log, Retired(s'.counter, paths)))])
    case FailedCommit => s' == s.(counter := s.counter + 1)
    case CreateTable(t) => t !in s.tables && s' == s.(tables := s.tables[t := Table([], 0, {})])
    case Reopen =>
      && IsMaxRecorded(s, s'.counter)
      && s'.tables.Keys == s.tables.Keys
      && forall t :: t in s.tables ==>
           && s'.tables[t].log == s.tables[t].log && s'.tables[t].drawn == {}
           && IsNextId(ViewAt(s.tables[t].log, MAX_TS), s'.tables[t].next)
  }

  // ----- what every state of a run keeps -----

  predicate InOrder(log: seq<Record>) {
    forall i, j :: 0 <= i < j < |log| ==> log[i].commitTs <= log[j].commitTs
  }

  predicate Stamped(log: seq<Record>, counter: nat) {
    forall i :: 0 <= i < |log| ==> log[i].commitTs <= counter
  }

  // Every number in view has been handed out, and is no longer waiting to be committed.
  ghost predicate Past(view: seq<ViewEntry>, next: nat, drawn: set<nat>) {
    forall i :: 0 <= i < |view| && SegmentId(view[i].path).Some? ==>
      SegmentId(view[i].path).value < next && SegmentId(view[i].path).value !in drawn
  }

  ghost predicate SoundTable(b: Table, counter: nat) {
    && InOrder(b.log) && Stamped(b.log, counter)
    && WellFormed(Visible(b.log, Top(b.log), MAX_TS))
    && (forall id :: id in b.drawn ==> id < b.next)
    && Past(ViewAt(b.log, MAX_TS), b.next, b.drawn)
  }

  // The commit counter never falls behind a recorded timestamp, nor the
  // segment counters behind a number in use.
  ghost predicate Sound(s: Store) {
    forall t :: t in s.tables ==> SoundTable(s.tables[t], s.counter)
  }

  lemma EmptyTable(counter: nat)
    ensures SoundTable(Table([], 0, {}), counter)
  {
  }

  lemma AppendKeepsOrder(log: seq<Record>, r: Record, counter: nat)
    requires InOrder(log) && Stamped(log, counter) && r.commitTs == counter + 1
    ensures InOrder(Appended(log, r)) && Stamped(Appended(log, r), counter + 1)
  {
  }

  // Appending only deletion vector updates and removals keeps a history well-formed and adds no path.
  lemma {:induction false} NoAddsExtend(es: seq<Event>, fs: seq<Event>)
    requires WellFormed(es) && forall k :: 0 <= k < |fs| ==> !fs[k].Add?
    ensures WellFormed(es + fs)
    ensures forall p :: InView(Fold(es + fs), p) ==> InView(Fold(es), p)
  {
    if fs == [] {
      assert es + fs == es;
    } else {
      var n := |fs| - 1;
      NoAddsExtend(es, fs[..n]);
      assert es + fs == es + fs[..n] + [fs[n]];
      SlotsStep(es + fs[..n], fs[n]);
      forall p ensures InView(Fold(es + fs), p) ==> InView(Fold(es), p) { InViewStep(es + fs[..n], fs[n], p); }
    }
  }

  // Adding distinct paths that are not in view keeps a history well-formed and adds just these paths.
  lemma {:induction false} AddsExtend(es: seq<Event>, r: Record, n: nat)
    requires WellFormed(es) && n <= |r.adds|
    requires forall k :: 0 <= k < |r.adds| ==> !InView(Fold(es), r.adds[k].path)
    requires forall j, k :: 0 <= j < k < |r.adds| ==> r.adds[j].path != r.adds[k].path
    ensures WellFormed(es + AddEvents(r, n))
    ensures forall p :: InView(Fold(es + AddEvents(r, n)), p) ==> InView(Fold(es), p) || exists k :: 0 <= k < n && r.adds[k].path == p
  {
    hide Fold, WellFormed, InView;
    if n == 0 {
      assert es + AddEvents(r, 0) == es;
    } else {
      AddsExtend(es, r, n - 1);
      var before, e := es + AddEvents(r, n - 1), AddEvents(r, n)[n - 1];
      assert es + AddEvents(r, n) == before + [e];
      SlotsStep(before, e);
      forall p ensures InView(Fold(before + [e]), p) ==> InView(Fold(es), p) || exists k :: 0 <= k < n && r.adds[k].path == p {
        InViewStep(before, e, p);
      }
    }
  }

  ghost predicate Behind(view: seq<ViewEntry>, next: nat, drawn: set<nat>) {
    forall p :: InView(view, p) && SegmentId(p).Some? ==> SegmentId(p).value < next && SegmentId(p).value !in drawn
  }

  // A table stays sound when its next record keeps the history well-formed and shows no number out of turn.
  lemma ExtendSound(b: Table, ts: nat, r: Record, drawn: set<nat>)
    requires SoundTable(b, ts) && r.commitTs == ts + 1 && drawn <= b.drawn
    requires var es := Visible(b.log, Top(b.log), MAX_TS) + EventsOf(r.(version := Top(b.log) + 1));
      WellFormed(es) && Behind(Fold(es), b.next, drawn)
    ensures SoundTable(b.(log := Appended(b.log, r), drawn := drawn), ts + 1)
  {
    hide Fold, WellFormed, InView, EventsOf, Visible, SegmentId, Top, Behind, Past;
    AppendKeepsOrder(b.log, r, ts);
    AppendedVisible(b.log, r, MAX_TS);
    PastViewed(ViewAt(b.log, MAX_TS), b.next, b.drawn);
    FewerBehind(ViewAt(b.log, MAX_TS), b.next, b.drawn, drawn);
    ViewedPast(ViewAt(Appended(b.log, r), MAX_TS), b.next, drawn);
  }

  lemma FewerBehind(view: seq<ViewEntry>, next: nat, drawn: set<nat>, fewer: set<nat>)
    requires Behind(view, next, drawn) && fewer <= drawn
    ensures Behind(view, next, fewer)
  {
  }

  lemma CommitExtends(b: Table, ts: nat, adds: seq<SegmentAdd>, dvs: seq<DVUpdate>)
    requires SoundTable(b, ts) && AreDrawn(adds, b.drawn)
    ensures SoundTable(b.(log := Appended(b.log, Committed(ts + 1, adds, dvs)), drawn := b.drawn - IdsOf(adds)), ts + 1)
  {
    hide Fold, WellFormed, InView, EventsOf, Visible, SegmentId, Top, Past, IdsOf, InOrder, Stamped;
    var r := Committed(ts + 1, adds, dvs).(version := Top(b.log) + 1);
    var es := Visible(b.log, Top(b.log), MAX_TS);
    PastViewed(Fold(es), b.next, b.drawn);
    AddsExtend(es, r, |adds|);
    NoAddsExtend(es + AddEvents(r, |adds|), DVEvents(r, |dvs|));
    CommitEvents(es, r);
    CommitBehind(Fold(es), Fold(es + EventsOf(r)), b, r);
    ExtendSound(b, ts, Committed(ts + 1, adds, dvs), b.drawn - IdsOf(adds));
  }

  lemma CommitBehind(before: seq<ViewEntry>, after: seq<ViewEntry>, b: Table, r: Record)
    requires Behind(before, b.next, b.drawn) && AreDrawn(r.adds, b.drawn)
    requires forall id :: id in b.drawn ==> id < b.next
    requires forall p :: InView(after, p) ==> InView(before, p) || exists k :: 0 <= k < |r.adds| && r.adds[k].path == p
    ensures Behind(after, b.next, b.drawn - IdsOf(r.adds))
  {
    hide InView, SegmentId;
    forall p | InView(after, p) && SegmentId(p).Some?
      ensures SegmentId(p).value < b.next && SegmentId(p).value !in b.drawn - IdsOf(r.adds)
    {
      if !InView(before, p) {
        var k :| 0 <= k < |r.adds| && r.adds[k].path == p;
        assert SegmentId(r.adds[k].path).value in IdsOf(r.adds);
      }
    }
  }

  lemma CommitEvents(es: seq<Event>, r: Record)
    requires r.path == "" && r.removes == []
    ensures es + AddEvents(r, |r.adds|) + DVEvents(r, |r.dvUpdates|) == es + EventsOf(r)
  {
    RecordEvents(es, r);
    assert RemoveEvents(r, 0) == [];
  }

  lemma PastViewed(view: seq<ViewEntry>, next: nat, drawn: set<nat>)
    requires Past(view, next, drawn)
    ensures Behind(view, next, drawn)
  {
  }

  lemma ViewedPast(view: seq<ViewEntry>, next: nat, drawn: set<nat>)
    requires Behind(view, next, drawn)
    ensures Past(view, next, drawn)
  {
    forall i | 0 <= i < |view| ensures InView(view, view[i].path) {
    }
  }

  lemma RetireExtends(b: Table, ts: nat, paths: seq<string>)
    requires SoundTable(b, ts)
    ensures SoundTable(b.(log := Appended(b.log, Retired(ts + 1, paths))), ts + 1)
  {
    hide Fold, WellFormed, InView, EventsOf, Visible, SegmentId, Top, Past, InOrder, Stamped;
    var r := Retired(ts + 1, paths).(version := Top(b.log) + 1);
    var es := Visible(b.log, Top(b.log), MAX_TS);
    PastViewed(Fold(es), b.next, b.drawn);
    NoAddsExtend(es, RemoveEvents(r, |paths|));
    RetireEvents(es, r);
    ExtendSound(b, ts, Retired(ts + 1, paths), b.drawn);
    assert b.(log := Appended(b.log, Retired(ts + 1, paths))) == b.(log := Appended(b.log, Retired(ts + 1, paths)), drawn := b.drawn);
  }

  lemma RetireEvents(es: seq<Event>, r: Record)
    requires r.path == "" && r.adds == [] && r.dvUpdates == []
    ensures es + RemoveEvents(r, |r.removes|) == es + EventsOf(r)
  {
    RecordEvents(es, r);
    assert es + AddEvents(r, 0) + DVEvents(r, 0) == es;
  }

  lemma ReopenSound(b: Table, ts: nat, c: Table, counter: nat)
    requires SoundTable(b, ts) && c.log == b.log && c.drawn == {} && Stamped(b.log, counter)
    requires IsNextId(ViewAt(b.log, MAX_TS), c.next)
    ensures SoundTable(c, counter)
  {
  }

  lemma LaterSound(b: Table, counter: nat, later: nat)
    requires SoundTable(b, counter) && counter <= later
    ensures SoundTable(b, later)
  {
  }

  lemma StepExtends(s: Store, a: Action, s': Store)
    requires Step(s, a, s')
    ensures forall t :: t in s.tables ==> t in s'.tables && s.tables[t].log <= s'.tables[t].log
  {
    hide ViewAt, IsMaxRecorded, AreDrawn, IdsOf;
  }

  lemma ReopenStamped(s: Store, ts: nat, t: string)
    requires IsMaxRecorded(s, ts) && t in s.tables
    ensures Stamped(s.tables[t].log, ts)
  {
  }

  lemma StepKeepsSound(s: Store, a: Action, s': Store)
    requires Sound(s) && Step(s, a, s')
    ensures Sound(s')
    ensures forall t :: t in s.tables ==> t in s'.tables && s.tables[t].log <= s'.tables[t].log
  {
    hide SoundTable, ViewAt, AreDrawn, IdsOf, Appended, IsMaxRecorded, Stamped;
    StepExtends(s, a, s');
    if s.counter <= s'.counter {
      forall t | t in s.tables ensures SoundTable(s.tables[t], s'.counter) {
        LaterSound(s.tables[t], s.counter, s'.counter);
      }
    }
    match a {
      case Draw(t) => DrawSound(s.tables[t], s.counter);
      case DoCommit(t, adds, dvs) => CommitExtends(s.tables[t], s.counter, adds, dvs);
      case DoRetire(t, paths) => RetireExtends(s.tables[t], s.counter, paths);
      case FailedCommit =>
      case CreateTable(t) => EmptyTable(s.counter);
      case Reopen =>
        forall t | t in s.tables ensures SoundTable(s'.tables[t], s'.counter) {
          ReopenStamped(s, s'.counter, t);
          ReopenSound(s.tables[t], s.counter, s'.tables[t], s'.counter);
        }
    }
  }

  lemma DrawSound(b: Table, ts: nat)
    requires SoundTable(b, ts)
    ensures SoundTable(b.(next := b.next + 1, drawn := b.drawn + {b.next}), ts)
  {
  }

  lemma StepKeepsOldViews(s: Store, a: Action, s': Store, t: string, ts: nat)
    requires Sound(s) && Step(s, a, s') && t in s.tables && ts <= s.counter
    ensures t in s'.tables && ViewAt(s'.tables[t].log, ts) == ViewAt(s.tables[t].log, ts)
  {
    match a {
      case DoCommit(u, adds, dvs) =>
        if u == t && (|adds| != 0 || |dvs| != 0) {
          LaterRecordInvisible(s.tables[t].log, Committed(s'.counter, adds, dvs), ts);
        }
      case DoRetire(u, paths) =>
        if u == t && |paths| != 0 {
          LaterRecordInvisible(s.tables[t].log, Retired(s'.counter, paths), ts);
        }
      case _ =>
    }
  }

  ghost predicate Run(states: seq<Store>, actions: seq<Action>) {
    && |states| == |actions| + 1
    && forall i :: 0 <= i < |actions| ==> Step(states[i], actions[i], states[i + 1])
  }

  lemma {:induction false} RunKeepsSound(states: seq<Store>, actions: seq<Action>, n: nat)
    requires Run(states, actions) && Sound(states[0]) && n <= |actions|
    ensures Sound(states[n])
  {
    if n > 0 {
      RunKeepsSound(states, actions, n - 1);
      StepKeepsSound(states[n - 1], actions[n - 1], states[n]);
    }
  }

  lemma RecordedIsPast(s: Store, ts: nat)
    requires Sound(s) && Recorded(s, ts)
    ensures ts <= s.counter
  {
    hide Past, WellFormed, Visible, ViewAt;
  }

  lemma RecordedStep(s: Store, a: Action, s': Store, ts: nat)
    requires Step(s, a, s') && Recorded(s, ts)
    ensures Recorded(s', ts)
  {
    StepExtends(s, a, s');
    hide Step;
    var t, i :| t in s.tables && 0 <= i < |s.tables[t].log| && s.tables[t].log[i].commitTs == ts;
    assert s'.tables[t].log[i] == s.tables[t].log[i];
  }

  lemma {:induction false} RecordedStays(states: seq<Store>, actions: seq<Action>, m: nat, n: nat, ts: nat)
    requires Run(states, actions) && Sound(states[0]) && m <= n <= |actions|
    requires Recorded(states[m], ts)
    ensures Recorded(states[n], ts) && ts <= states[n].counter
    decreases n
  {
    hide Sound, Step, Recorded;
    RunKeepsSound(states, actions, n);
    if m < n {
      RecordedStays(states, actions, m, n - 1, ts);
      RecordedStep(states[n - 1], actions[n - 1], states[n], ts);
    }
    RecordedIsPast(states[n], ts);
  }

  // Time travel is stable: once a timestamp has been reached by a recorded
  // commit, what any table shows at that time or earlier never changes again,
  // through commits, retirements, failed commits and reopens.
  lemma {:induction false} SnapshotsAreStable(states: seq<Store>, actions: seq<Action>, m: nat, n: nat, t: string, ts: nat, recorded: nat)
    requires Run(states, actions) && Sound(states[0]) && m <= n <= |actions|
    requires t in states[m].tables && ts <= recorded && Recorded(states[m], recorded)
    ensures t in states[n].tables && ViewAt(states[n].tables[t].log, ts) == ViewAt(states[m].tables[t].log, ts)
    decreases n
  {
    hide ViewAt, Sound, Step, Recorded;
    if m < n {
      SnapshotsAreStable(states, actions, m, n - 1, t, ts, recorded);
      RunKeepsSound(states, actions, n - 1);
      RecordedStays(states, actions, m, n - 1, recorded);
      StepKeepsOldViews(states[n - 1], actions[n - 1], states[n], t, ts);
    }
  }

  // ----- every version and timestamp of a log shows a prefix of its history -----

  lemma {:induction false} VisibleAtIsPrefix(log: seq<Record>, v: nat, ts: nat, u: nat, maxTs: nat)
    requires InOrder(log) && Reached(log, u) && ts <= maxTs
    ensures Visible(log, v, ts) <= Visible(log, u, maxTs)
    ensures Reached(log, v) && (forall i :: 0 <= i < |log| ==> log[i].commitTs <= ts) ==> Visible(log, v, ts) == Visible(log, u, maxTs)
  {
    if log != [] {
      var n := |log| - 1;
      VisibleAtIsPrefix(log[..n], v, ts, u, maxTs);
      assert Reached(log, v) ==> Reached(log[..n], v);
    }
  }

  // In every state of every run, whatever version or time is asked for: no path
  // was added while in view, and what is shown are the live segments, each once,
  // with the latest deletion vector.
  lemma EveryViewIsLatest(states: seq<Store>, actions: seq<Action>, n: nat, t: string, v: nat, ts: nat)
    requires Run(states, actions) && Sound(states[0]) && n <= |actions| && t in states[n].tables && ts <= MAX_TS
    ensures var es := Visible(states[n].tables[t].log, v, ts);
      && WellFormed(es)
      && (forall p :: p != "" ==> (InView(Fold(es), p) <==> LiveIn(es, p)))
      && (forall i :: 0 <= i < |Fold(es)| ==> (Fold(es)[i].dv, Fold(es)[i].dvTs) == LatestDV(es, Fold(es)[i].path))
      && (forall i, j :: 0 <= i < j < |Fold(es)| ==> Fold(es)[i].path != Fold(es)[j].path)
  {
    hide Visible, WellFormed, Fold, LiveIn, LatestDV, InView;
    RunKeepsSound(states, actions, n);
    var log := states[n].tables[t].log;
    VisibleAtIsPrefix(log, v, ts, Top(log), MAX_TS);
    var a, b := Visible(log, v, ts), Visible(log, Top(log), MAX_TS);
    WellFormedPrefix(b, |a|);
    assert b[..|a|] == a;
    ViewIsLatest(a);
  }

  // What two reads of a table at the same time return, however much later the second one is.
  method ReadTwice(f: ManifestFile, g: ManifestFile, ts: nat,
                   ghost states: seq<Store>, ghost actions: seq<Action>, ghost m: nat, ghost n: nat, ghost t: string, ghost recorded: nat)
    returns (a: seq<ViewEntry>, b: seq<ViewEntry>)
    requires Run(states, actions) && Sound(states[0]) && m <= n <= |actions|
    requires t in states[m].tables && ts <= recorded <= MAX_TS && Recorded(states[m], recorded)
    requires f.Valid() && f.records == states[m].tables[t].log
    requires g.Valid() && t in states[n].tables && g.records == states[n].tables[t].log
    ensures a == b
    ensures forall i, j :: 0 <= i < j < |a| ==> a[i].path != a[j].path
    ensures forall i :: 0 <= i < |a| ==> (a[i].dv, a[i].dvTs) == LatestDV(Visible(f.records, Top(f.records), ts), a[i].path)
  {
    a := f.SnapshotAt(ts);
    b := g.SnapshotAt(ts);
    SnapshotsAreStable(states, actions, m, n, t, ts, recorded);
    EveryViewIsLatest(states, actions, m, t, Top(f.records), ts);
  }
}
