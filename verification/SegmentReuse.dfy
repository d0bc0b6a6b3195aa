// Segment numbers over whole runs: when a number handed out is new to the whole
// history of its table, older snapshots included, and when it is not.
module SegmentReuse {
  import opened Options
  import opened Manifest
  import opened SegmentNames
  import opened TimeTravel

  // The numbers of all segments ever added, retired ones too.
  function AddedIds(log: seq<Record>): (ids: set<nat>) {
    if log == [] then {} else AddedIds(log[..|log| - 1]) + IdsOf(log[|log| - 1].adds)
  }

  // Nothing the table has handed out or will hand out from here has been used before.
  ghost predicate AheadOfHistory(b: Table) {
    forall id :: id in AddedIds(b.log) ==> id < b.next && id !in b.drawn
  }

  ghost predicate AllAhead(s: Store) {
    forall t :: t in s.tables ==> AheadOfHistory(s.tables[t])
  }

  // No segment numbered above all live ones was ever added.
  ghost predicate NewestIsLive(log: seq<Record>) {
    forall id :: id in AddedIds(log) ==> LiveAtLeast(ViewAt(log, MAX_TS), id)
  }

  ghost predicate LiveAtLeast(view: seq<ViewEntry>, id: nat) {
    exists i :: 0 <= i < |view| && SegmentId(view[i].path).Some? && id <= SegmentId(view[i].path).value
  }

  lemma AppendedIds(log: seq<Record>, r: Record)
    ensures AddedIds(Appended(log, r)) == AddedIds(log) + IdsOf(r.adds)
  {
    hide IdsOf;
    assert Appended(log, r)[..|log|] == log;
  }

  lemma NoIds()
    ensures IdsOf([]) == {}
  {
  }

  lemma DrawnIds(adds: seq<SegmentAdd>, drawn: set<nat>)
    requires AreDrawn(adds, drawn)
    ensures IdsOf(adds) <= drawn
  {
  }

  // Everything but a reopen keeps the counters ahead of the history.
  lemma StepKeepsAhead(s: Store, a: Action, s': Store)
    requires Sound(s) && AllAhead(s) && Step(s, a, s') && !a.Reopen?
    ensures AllAhead(s')
  {
    hide AddedIds, Appended, ViewAt, IdsOf, AreDrawn, Past, WellFormed;
    NoIds();
    match a {
      case DoCommit(t, adds, dvs) =>
        AppendedIds(s.tables[t].log, Committed(s'.counter, adds, dvs));
        DrawnIds(adds, s.tables[t].drawn);
      case DoRetire(t, paths) =>
        AppendedIds(s.tables[t].log, Retired(s'.counter, paths));
      case CreateTable(t) => NoHistory();
      case _ =>
    }
  }

  lemma NoHistory()
    ensures AddedIds([]) == {}
  {
  }

  // A reopen counts from the current view, so it stays ahead of the history
  // exactly when no number above the live ones was ever used.
  lemma ReopenIsAheadIff(s: Store, s': Store, t: string)
    requires Step(s, Reopen, s') && t in s.tables
    ensures AheadOfHistory(s'.tables[t]) <==> NewestIsLive(s.tables[t].log)
  {
    hide AddedIds, ViewAt, IsMaxRecorded;
    var view, next := ViewAt(s.tables[t].log, MAX_TS), s'.tables[t].next;
    forall id: nat ensures id < next <==> LiveAtLeast(view, id) { NextIsPastLive(view, next, id); }
  }

  lemma NextIsPastLive(view: seq<ViewEntry>, next: nat, id: nat)
    requires IsNextId(view, next)
    ensures id < next <==> LiveAtLeast(view, id)
  {
    hide SegmentId;
    if id < next {
      var i :| 0 <= i < |view| && SegmentId(view[i].path) == Some((next - 1) as nat);
    }
  }

  // In a run whose reopens find the newest segment of every table alive, every
  // number is handed out once.
  lemma {:induction false} NumbersAreNew(states: seq<Store>, actions: seq<Action>, n: nat)
    requires Run(states, actions) && Sound(states[0]) && AllAhead(states[0]) && n <= |actions|
    requires forall m, t :: 0 <= m < n && actions[m].Reopen? && t in states[m].tables ==> NewestIsLive(states[m].tables[t].log)
    ensures AllAhead(states[n])
    ensures forall t :: t in states[n].tables ==> states[n].tables[t].next !in AddedIds(states[n].tables[t].log)
  {
    hide Sound, NewestIsLive, AddedIds, Step, AllAhead;
    if n > 0 {
      NumbersAreNew(states, actions, n - 1);
      RunKeepsSound(states, actions, n - 1);
      if actions[n - 1].Reopen? {
        ReopenKeepsAhead(states[n - 1], states[n]);
      } else {
        StepKeepsAhead(states[n - 1], actions[n - 1], states[n]);
      }
    }
    NextIsNew(states[n]);
  }

  lemma ReopenKeepsAhead(s: Store, s': Store)
    requires Step(s, Reopen, s') && forall t :: t in s.tables ==> NewestIsLive(s.tables[t].log)
    ensures AllAhead(s')
  {
    hide NewestIsLive, AheadOfHistory, ViewAt, IsMaxRecorded, IsNextId;
    forall t | t in s'.tables ensures AheadOfHistory(s'.tables[t]) {
      assert t in s.tables;
      ReopenIsAheadIff(s, s', t);
    }
  }

  lemma NextIsNew(s: Store)
    requires AllAhead(s)
    ensures forall t :: t in s.tables ==> s.tables[t].next !in AddedIds(s.tables[t].log)
  {
    hide AddedIds;
  }

  // ----- and when it is not alive -----

  function AfterDraws(b: Table, k: nat): (after: Table)
    ensures after.next == b.next + k && after.log == b.log
    ensures forall id :: id in b.drawn || b.next <= id < b.next + k ==> id in after.drawn
  {
    if k == 0 then b
    else
      var before := AfterDraws(b, k - 1);
      before.(next := before.next + 1, drawn := before.drawn + {before.next})
  }

  // Draws alone then reach a number that the history has already used.
  lemma UsedNumberReturns(s: Store, s': Store, t: string)
    requires Step(s, Reopen, s') && t in s.tables && !NewestIsLive(s.tables[t].log)
    ensures exists id, k: nat :: id in AddedIds(s'.tables[t].log) && id in AfterDraws(s'.tables[t], k).drawn
  {
    ReopenIsAheadIff(s, s', t);
    var id :| id in AddedIds(s'.tables[t].log) && !(id < s'.tables[t].next && id !in s'.tables[t].drawn);
    assert id in AfterDraws(s'.tables[t], id - s'.tables[t].next + 1).drawn;
  }

  lemma DrawsAdvance(s: Store, t: string, k: nat)
    requires t in s.tables
    ensures Step(s.(tables := s.tables[t := AfterDraws(s.tables[t], k)]), Draw(t), s.(tables := s.tables[t := AfterDraws(s.tables[t], k + 1)]))
  {
    var u := s.(tables := s.tables[t := AfterDraws(s.tables[t], k)]);
    assert u.tables[t := AfterDraws(s.tables[t], k + 1)] == s.tables[t := AfterDraws(s.tables[t], k + 1)];
  }

  // ----- a run in which an old snapshot names a new file -----

  function Log1(p: string): seq<Record> { Appended([], Committed(1, [SegmentAdd(p, 10)], [])) }
  function Log2(p: string): seq<Record> { Appended(Log1(p), Retired(2, [p])) }
  function Log3(p: string): seq<Record> { Appended(Log2(p), Committed(3, [SegmentAdd(p, 20)], [])) }

  function OneTable(b: Table, counter: nat): Store { Store(map["t" := b], counter) }

  // A segment is added, retired, the database reopened, and the next segment gets its path.
  function ReuseRun(p: string): (states: seq<Store>) {
    [OneTable(Table([], 0, {}), 0), OneTable(Table([], 1, {0}), 0), OneTable(Table(Log1(p), 1, {}), 1), OneTable(Table(Log2(p), 1, {}), 2),
     OneTable(Table(Log2(p), 0, {}), 2), OneTable(Table(Log2(p), 1, {0}), 2), OneTable(Table(Log3(p), 1, {}), 3)]
  }

  function ReuseActions(p: string): (actions: seq<Action>) {
    [Draw("t"), DoCommit("t", [SegmentAdd(p, 10)], []), DoRetire("t", [p]), Reopen, Draw("t"), DoCommit("t", [SegmentAdd(p, 20)], [])]
  }

  function Entry(p: string, version: nat, ts: nat, rows: nat): ViewEntry {
    ViewEntry(version, ts, p, rows, "", 0)
  }

  lemma OneAdd(version: nat, ts: nat, p: string, rows: nat)
    ensures EventsOf(Committed(ts, [SegmentAdd(p, rows)], []).(version := version)) == [Add(Entry(p, version, ts, rows))]
  {
  }

  lemma OneRemove(version: nat, ts: nat, p: string)
    ensures EventsOf(Retired(ts, [p]).(version := version)) == [Remove(p)]
  {
  }

  lemma EmptyLog(maxTs: nat)
    ensures Visible([], Top([]), maxTs) == [] && Top([]) == 0 && ViewAt([], maxTs) == []
  {
  }

  lemma TopStep(log: seq<Record>, r: Record)
    ensures Top(Appended(log, r)) == Top(log) + 1
  {
    assert Appended(log, r)[..|log|] == log;
  }

  // The events visible at time 1 and now, at the stages of the run.
  lemma Events1(p: string, maxTs: nat)
    requires 1 <= maxTs
    ensures Visible(Log1(p), Top(Log1(p)), maxTs) == [Add(Entry(p, 1, 1, 10))] && Top(Log1(p)) == 1
  {
    hide Visible, EventsOf, Top;
    EmptyLog(maxTs);
    TopStep([], Committed(1, [SegmentAdd(p, 10)], []));
    OneAdd(1, 1, p, 10);
    AppendedVisible([], Committed(1, [SegmentAdd(p, 10)], []), maxTs);
    assert [] + [Add(Entry(p, 1, 1, 10))] == [Add(Entry(p, 1, 1, 10))];
  }

  lemma Events2(p: string, maxTs: nat)
    requires 1 <= maxTs
    ensures Visible(Log2(p), Top(Log2(p)), maxTs) == (if maxTs < 2 then [Add(Entry(p, 1, 1, 10))] else [Add(Entry(p, 1, 1, 10)), Remove(p)])
    ensures Top(Log2(p)) == 2
  {
    hide Visible, EventsOf, Top, Log1;
    Events1(p, maxTs);
    TopStep(Log1(p), Retired(2, [p]));
    OneRemove(2, 2, p);
    AppendedVisible(Log1(p), Retired(2, [p]), maxTs);
    assert [Add(Entry(p, 1, 1, 10))] + [Remove(p)] == [Add(Entry(p, 1, 1, 10)), Remove(p)];
  }

  lemma Events3(p: string, maxTs: nat)
    requires 1 <= maxTs < 2 || 3 <= maxTs
    ensures Visible(Log3(p), Top(Log3(p)), maxTs)
      == (if maxTs < 2 then [Add(Entry(p, 1, 1, 10))] else [Add(Entry(p, 1, 1, 10)), Remove(p), Add(Entry(p, 3, 3, 20))])
  {
    hide Visible, EventsOf, Top, Log2;
    Events2(p, maxTs);
    TopStep(Log2(p), Committed(3, [SegmentAdd(p, 20)], []));
    OneAdd(3, 3, p, 20);
    AppendedVisible(Log2(p), Committed(3, [SegmentAdd(p, 20)], []), maxTs);
    assert [Add(Entry(p, 1, 1, 10)), Remove(p)] + [Add(Entry(p, 3, 3, 20))] == [Add(Entry(p, 1, 1, 10)), Remove(p), Add(Entry(p, 3, 3, 20))];
  }

  lemma AddAlone(e: ViewEntry)
    requires e.path != ""
    ensures Fold([Add(e)]) == [e]
  {
    SlotsStep([], Add(e));
    assert [] + [Add(e)] == [Add(e)];
    assert Slots([Add(e)]) == [Slot(e, true)];
  }

  lemma AddThenRemove(e: ViewEntry)
    requires e.path != ""
    ensures Slots([Add(e), Remove(e.path)]) == []
  {
    hide Slots, Without;
    SlotsStep([], Add(e));
    SlotsStep([Add(e)], Remove(e.path));
    assert [] + [Add(e)] == [Add(e)] && [Add(e)] + [Remove(e.path)] == [Add(e), Remove(e.path)];
    NoSlots();
    var none: seq<Slot> := [];
    assert Supersede(none, e.path) + [Slot(e, true)] == [] + [Slot(e, true)];
    WithoutStep(none, Slot(e, true), e.path);
    WithoutNothing(e.path);
  }

  lemma NoSlots()
    ensures Slots([]) == []
  {
  }

  lemma AddAgain(e: ViewEntry, f: ViewEntry)
    requires e.path == f.path != ""
    ensures Fold([Add(e), Remove(e.path), Add(f)]) == [f]
  {
    hide Slots;
    AddThenRemove(e);
    SlotsStep([Add(e), Remove(e.path)], Add(f));
    assert [Add(e), Remove(e.path)] + [Add(f)] == [Add(e), Remove(e.path), Add(f)];
    assert Slots([Add(e), Remove(e.path), Add(f)]) == [Slot(f, true)];
  }

  lemma ReuseSteps(p: string)
    requires SegmentId(p) == Some(0)
    ensures Run(ReuseRun(p), ReuseActions(p))
  {
    hide Visible, Fold, SegmentId, Top, ViewAt;
    var r, a := ReuseRun(p), ReuseActions(p);
    ReuseReopen(p);
    ReuseDraws(p);
    ReuseCommits(p);
    forall i | 0 <= i < |a| ensures Step(r[i], a[i], r[i + 1]) {
      assert i == 0 || i == 1 || i == 2 || i == 3 || i == 4 || i == 5;
    }
  }

  lemma ReuseDraws(p: string)
    ensures var r := ReuseRun(p); Step(r[0], Draw("t"), r[1]) && Step(r[4], Draw("t"), r[5])
  {
    hide Log1, Log2, Log3;
    OneDraw([], 0);
    OneDraw(Log2(p), 2);
  }

  lemma OneDraw(log: seq<Record>, counter: nat)
    ensures Step(OneTable(Table(log, 0, {}), counter), Draw("t"), OneTable(Table(log, 1, {0}), counter))
  {
    assert {} + {0} == {0};
    Overwrites(Table(log, 0, {}), Table(log, 1, {0}));
  }

  lemma Overwrites(a: Table, b: Table)
    ensures map["t" := a]["t" := b] == map["t" := b]
  {
  }

  lemma ReuseCommits(p: string)
    requires SegmentId(p) == Some(0)
    ensures var r := ReuseRun(p);
      && Step(r[1], DoCommit("t", [SegmentAdd(p, 10)], []), r[2])
      && Step(r[2], DoRetire("t", [p]), r[3])
      && Step(r[5], DoCommit("t", [SegmentAdd(p, 20)], []), r[6])
  {
    hide Visible, Fold, SegmentId, Top, ViewAt, Appended, IdsOf;
    OneId(SegmentAdd(p, 10));
    OneId(SegmentAdd(p, 20));
    Overwrites(Table([], 1, {0}), Table(Log1(p), 1, {}));
    Overwrites(Table(Log1(p), 1, {}), Table(Log2(p), 1, {}));
    Overwrites(Table(Log2(p), 1, {0}), Table(Log3(p), 1, {}));
  }

  lemma OneId(a: SegmentAdd)
    requires SegmentId(a.path) == Some(0)
    ensures IdsOf([a]) == {0} && {0} - IdsOf([a]) == {}
  {
    hide SegmentId;
    assert [a][0] == a;
    assert 0 in IdsOf([a]);
  }

  lemma ReuseReopen(p: string)
    requires SegmentId(p) == Some(0)
    ensures Step(ReuseRun(p)[3], Reopen, ReuseRun(p)[4])
  {
    hide Visible, Fold, SegmentId, Top;
    var s := OneTable(Table(Log2(p), 1, {}), 2);
    Events2(p, MAX_TS);
    NamedPath(p);
    RemovedView(p);
    assert Log2(p)[1].commitTs == 2 && Log2(p)[0].commitTs == 1 && |Log2(p)| == 2;
    assert "t" in s.tables && s.tables["t"].log[1].commitTs == 2;
    assert Recorded(s, 2);
  }

  lemma NamedPath(p: string)
    requires SegmentId(p).Some?
    ensures p != ""
  {
  }

  lemma RemovedView(p: string)
    requires p != ""
    ensures Fold([Add(Entry(p, 1, 1, 10)), Remove(p)]) == []
  {
    AddThenRemove(Entry(p, 1, 1, 10));
  }

  // The snapshot at time 1, which is long recorded, names the very file that the last commit wrote.
  lemma OldSnapshotNamesNewFile(dir: string)
    ensures var p := SegmentPath(dir, 0);
      && Run(ReuseRun(p), ReuseActions(p)) && ReuseRun(p)[6].tables["t"].log == Log3(p)
      && ViewAt(Log3(p), 1) == [Entry(p, 1, 1, 10)] && ViewAt(Log3(p), MAX_TS) == [Entry(p, 3, 3, 20)]
  {
    hide Visible, Fold, SegmentId, Top, SegmentPath, Run, Log3;
    var p := SegmentPath(dir, 0);
    PathGivesId(dir, 0);
    NamedPath(p);
    ReuseSteps(p);
    Events3(p, 1);
    Events3(p, MAX_TS);
    AddAlone(Entry(p, 1, 1, 10));
    AddAgain(Entry(p, 1, 1, 10), Entry(p, 3, 3, 20));
  }
}
