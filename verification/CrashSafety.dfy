// A commit that may crash between any two disk operations, and whose recovery
// may crash again: what every reachable state keeps.
module CrashSafety {
  import opened Manifest
  import opened TxnGroups
  import opened CommitProtocol
  import TimeTravel

  // ----- the state machine -----

  datatype Phase = Idle | Committing(n: nat) | Recovering(ops: seq<Op>, n: nat)

  // intent, before and logged remember the last transaction begun: what it
  // publishes, the disk it started from, and whether its intent became durable.
  datatype State = State(disk: Disk, phase: Phase, intent: Intent, before: Disk, logged: bool)

  datatype Action = Begin(intent: Intent) | Tick | Crash(kept: nat)

  function Stages(ps: seq<string>): (ops: seq<Op>)
    ensures |ops| == |ps| && forall k :: 0 <= k < |ps| ==> ops[k] == Stage(ps[k])
  {
    seq(|ps|, k requires 0 <= k < |ps| => Stage(ps[k]))
  }

  // The files of a transaction are written first; then the log protects their publication.
  function TxnOps(i: Intent): (ops: seq<Op>)
    ensures |ops| == |Paths(i)| + 4
  {
    Stages(Paths(i)) + CommitOps(i) + [LogTruncate]
  }

  function PathSet(i: Intent): set<string> {
    set p | p in Paths(i)
  }

  // Every file a manifest names, live or not.
  function NamedBy(log: seq<Record>): (ps: set<string>) {
    if log == [] then {}
    else
      var r := log[|log| - 1];
      NamedBy(log[..|log| - 1]) + (set k | 0 <= k < |r.adds| :: r.adds[k].path) + (set k | 0 <= k < |r.dvUpdates| :: r.dvUpdates[k].dv)
  }

  function Named(logs: map<string, seq<Record>>): (ps: set<string>) {
    set t, p | t in logs && p in NamedBy(logs[t]) :: p
  }

  // Fresh proper paths, and no deletion vector published without a segment.
  predicate Startable(d: Disk, i: Intent) {
    && i.table != "" && i.commitTs <= MAX_TS
    && PathSet(i) !! d.files && "" !in PathSet(i)
    && (i.adds != [] || i.dvUpdates == [])
  }

  function Ops(s: State): seq<Op> {
    match s.phase
    case Idle => []
    case Committing(_) => TxnOps(s.intent)
    case Recovering(ops, _) => ops
  }

  function At(s: State): nat {
    match s.phase
    case Idle => 0
    case Committing(n) => n
    case Recovering(_, n) => n
  }

  function Advance(p: Phase): Phase {
    match p
    case Idle => Idle
    case Committing(n) => Committing(n + 1)
    case Recovering(ops, n) => Recovering(ops, n + 1)
  }

  predicate Next(s: State, a: Action, s': State) {
    match a
    case Begin(i) =>
      s.phase.Idle? && Startable(s.disk, i) && s' == State(s.disk, Committing(0), i, s.disk, false)
    case Tick =>
      !s.phase.Idle?
      && (if At(s) >= |Ops(s)| then s' == s.(phase := Idle)
          else s' == s.(disk := Do(s.disk, Ops(s)[At(s)]), phase := Advance(s.phase),
                        logged := s.logged || (s.phase.Committing? && Ops(s)[At(s)].LogSync?)))
    case Crash(kept) =>
      kept <= |s.disk.tail|
      && (var d := Crashed(s.disk, kept);
          s' == s.(disk := d, phase := Recovering(RecoveryOps(d, Groups(d.wal)), 0)))
  }

  // ----- manifests that only commits have written -----

  predicate Plain(log: seq<Record>) {
    forall k :: 0 <= k < |log| ==> log[k].version == k + 1 && log[k].commitTs <= MAX_TS && log[k].path == "" && log[k].removes == []
  }

  predicate PlainLogs(logs: map<string, seq<Record>>) {
    forall t :: t in logs ==> Plain(logs[t])
  }

  predicate NoRemoves(es: seq<Event>) {
    forall k :: 0 <= k < |es| ==> !es[k].Remove?
  }

  predicate Adds(es: seq<Event>, p: string) {
    exists k :: 0 <= k < |es| && es[k].Add? && es[k].entry.path == p
  }

  lemma {:induction false} ViewOfAdds(es: seq<Event>, p: string)
    requires NoRemoves(es)
    ensures InView(Fold(es), p) <==> p != "" && Adds(es, p)
  {
    hide Fold;
    if es == [] {
      NothingInView(p);
    } else {
      var n := |es| - 1;
      ViewOfAdds(es[..n], p);
      AddsAppend(es[..n], es[n], p);
      assert es == es[..n] + [es[n]];
      InViewStep(es[..n], es[n], p);
    }
  }

  lemma NothingInView(p: string)
    ensures !InView(Fold([]), p)
  {
  }

  lemma AddsAppend(es: seq<Event>, e: Event, p: string)
    ensures Adds(es + [e], p) <==> Adds(es, p) || (e.Add? && e.entry.path == p)
  {
    if Adds(es, p) {
      var k :| 0 <= k < |es| && es[k].Add? && es[k].entry.path == p;
      assert (es + [e])[k] == es[k];
    }
    if e.Add? && e.entry.path == p { assert (es + [e])[|es|] == e; }
  }

  lemma AddsConcat(a: seq<Event>, b: seq<Event>, p: string)
    ensures Adds(a + b, p) <==> Adds(a, p) || Adds(b, p)
    ensures NoRemoves(a) && NoRemoves(b) ==> NoRemoves(a + b)
  {
    if Adds(a, p) {
      var k :| 0 <= k < |a| && a[k].Add? && a[k].entry.path == p;
      assert (a + b)[k] == a[k];
    }
    if Adds(b, p) {
      var k :| 0 <= k < |b| && b[k].Add? && b[k].entry.path == p;
      assert (a + b)[|a| + k] == b[k];
    }
  }

  predicate AddsPath(r: Record, p: string) {
    exists k :: 0 <= k < |r.adds| && r.adds[k].path == p
  }

  lemma RecordAdds(r: Record, p: string)
    requires r.path == "" && r.removes == []
    ensures NoRemoves(EventsOf(r))
    ensures Adds(EventsOf(r), p) <==> AddsPath(r, p)
  {
    var a, d := AddEvents(r, |r.adds|), DVEvents(r, |r.dvUpdates|);
    assert EventsOf(r) == a + d;
    AddsConcat(a, d, p);
    if Adds(a, p) {
      var k :| 0 <= k < |a| && a[k].Add? && a[k].entry.path == p;
      assert r.adds[k].path == p;
    }
    if AddsPath(r, p) {
      var k :| 0 <= k < |r.adds| && r.adds[k].path == p;
      assert a[k].entry.path == p;
    }
  }

  predicate EverAdded(log: seq<Record>, p: string) {
    exists k :: 0 <= k < |log| && AddsPath(log[k], p)
  }

  lemma AddedInFront(log: seq<Record>, p: string)
    requires log != []
    ensures EverAdded(log, p) <==> EverAdded(log[..|log| - 1], p) || AddsPath(log[|log| - 1], p)
  {
    hide AddsPath;
    var n := |log| - 1;
    if k :| 0 <= k < |log| && AddsPath(log[k], p) { assert k < n ==> log[..n][k] == log[k]; }
    if k :| 0 <= k < n && AddsPath(log[..n][k], p) { assert log[k] == log[..n][k]; }
  }

  lemma PlainFront(log: seq<Record>, upTo: nat)
    requires Plain(log) && log != [] && |log| <= upTo
    ensures Plain(log[..|log| - 1]) && Reached(log, upTo)
    ensures var r := log[|log| - 1]; r.commitTs <= MAX_TS && r.path == "" && r.removes == []
  {
  }

  // In a plain manifest a path is in the current view exactly when some record added it.
  lemma {:induction false} VisibleAdds(log: seq<Record>, upTo: nat, p: string)
    requires Plain(log) && |log| <= upTo
    ensures NoRemoves(Visible(log, upTo, MAX_TS))
    ensures Adds(Visible(log, upTo, MAX_TS), p) <==> EverAdded(log, p)
  {
    if log == [] {
      VisibleNothing(upTo, MAX_TS);
    } else {
      hide Visible, EventsOf, Adds, AddsPath, NoRemoves, EverAdded, Plain, Reached;
      var n := |log| - 1;
      PlainFront(log, upTo);
      VisibleAdds(log[..n], upTo, p);
      AddedInFront(log, p);
      assert log == log[..n] + [log[n]];
      VisibleStep(log[..n], log[n], upTo, MAX_TS);
      RecordAdds(log[n], p);
      AddsConcat(Visible(log[..n], upTo, MAX_TS), EventsOf(log[n]), p);
    }
  }

  lemma {:induction false} AddedIsNamed(log: seq<Record>, k: nat, p: string)
    requires k < |log| && AddsPath(log[k], p)
    ensures p in NamedBy(log)
  {
    if k < |log| - 1 { AddedIsNamed(log[..|log| - 1], k, p); }
  }

  lemma KnownIffAdded(logs: map<string, seq<Record>>, t: string, p: string)
    requires PlainLogs(logs)
    ensures Known(logs, t, p) <==> p != "" && exists k :: 0 <= k < |LogOf(logs, t)| && AddsPath(LogOf(logs, t)[k], p)
    ensures Known(logs, t, p) ==> p in Named(logs)
  {
    hide Visible, Fold, InView, Adds, NoRemoves, AddsPath, Top, NamedBy;
    var log := LogOf(logs, t);
    TopOfPlain(log);
    VisibleAdds(log, |log|, p);
    ViewOfAdds(Visible(log, |log|, MAX_TS), p);
    if k :| 0 <= k < |log| && AddsPath(log[k], p) {
      AddedIsNamed(log, k, p);
    }
  }

  lemma {:induction false} TopOfPlain(log: seq<Record>)
    requires Plain(log)
    ensures Top(log) == |log|
  {
    if log != [] { TopOfPlain(log[..|log| - 1]); }
  }

  lemma PublishNames(logs: map<string, seq<Record>>, i: Intent)
    requires PlainLogs(logs) && i.commitTs <= MAX_TS
    ensures var after := Published(logs, i.table, i.commitTs, i.adds, i.dvUpdates);
      PlainLogs(after) && Named(after) == Named(logs) + PathSet(i)
  {
    var after := Published(logs, i.table, i.commitTs, i.adds, i.dvUpdates);
    if i.adds == [] && i.dvUpdates == [] {
      assert PathSet(i) == {};
    } else {
      AppendNames(LogOf(logs, i.table), i);
      NamedUpdate(logs, i.table, after[i.table], PathSet(i));
    }
  }

  lemma AppendNames(log: seq<Record>, i: Intent)
    ensures NamedBy(TimeTravel.Appended(log, TimeTravel.Committed(i.commitTs, i.adds, i.dvUpdates))) == NamedBy(log) + PathSet(i)
  {
    var r := TimeTravel.Committed(i.commitTs, i.adds, i.dvUpdates).(version := |log| + 1);
    assert (log + [r])[..|log|] == log;
    RecordNames(i);
  }

  lemma NamedUpdate(logs: map<string, seq<Record>>, table: string, log: seq<Record>, ps: set<string>)
    requires NamedBy(log) == NamedBy(LogOf(logs, table)) + ps
    ensures Named(logs[table := log]) == Named(logs) + ps
  {
    hide NamedBy;
    var after := logs[table := log];
    assert table !in logs ==> NamedBy(LogOf(logs, table)) == {} by { NamedByNothing(); }
    forall p ensures p in Named(after) <==> p in Named(logs) || p in ps {
      if p in ps { assert p in NamedBy(after[table]); }
      if p in Named(logs) {
        var t :| t in logs && p in NamedBy(logs[t]);
        assert t in after && p in NamedBy(after[t]);
      }
    }
  }

  lemma NamedByNothing()
    ensures NamedBy([]) == {}
  {
  }

  lemma RecordNames(i: Intent)
    ensures PathSet(i)
      == (set k | 0 <= k < |i.adds| :: i.adds[k].path) + (set k | 0 <= k < |i.dvUpdates| :: i.dvUpdates[k].dv)
  {
    var ps := Paths(i);
    forall p ensures p in PathSet(i) <==> p in (set k | 0 <= k < |i.adds| :: i.adds[k].path) + (set k | 0 <= k < |i.dvUpdates| :: i.dvUpdates[k].dv) {
      if k :| 0 <= k < |i.adds| && i.adds[k].path == p { assert ps[k] == p; }
      if k :| 0 <= k < |i.dvUpdates| && i.dvUpdates[k].dv == p { assert ps[|i.adds| + k] == p; }
    }
  }

  lemma PublishCommits(logs: map<string, seq<Record>>, i: Intent)
    requires PlainLogs(logs) && i.commitTs <= MAX_TS && i.table != "" && i.adds != [] && "" !in PathSet(i)
    ensures IsCommitted(Published(logs, i.table, i.commitTs, i.adds, i.dvUpdates), i)
  {
    hide Known, PlainLogs, Named, NamedBy;
    PublishNames(logs, i);
    var after := Published(logs, i.table, i.commitTs, i.adds, i.dvUpdates);
    var log := LogOf(logs, i.table);
    assert LogOf(after, i.table) == TimeTravel.Appended(log, TimeTravel.Committed(i.commitTs, i.adds, i.dvUpdates));
    assert AddsPath(LogOf(after, i.table)[|log|], i.adds[0].path);
    assert Paths(i)[0] == i.adds[0].path;
    KnownIffAdded(after, i.table, i.adds[0].path);
  }

  // An intent none of whose paths a manifest names is not committed.
  lemma UnnamedIsUncommitted(logs: map<string, seq<Record>>, i: Intent)
    requires PlainLogs(logs) && PathSet(i) !! Named(logs)
    ensures !IsCommitted(logs, i)
  {
    if IsCommitted(logs, i) {
      var k :| 0 <= k < |i.adds| && Known(logs, i.table, i.adds[k].path);
      assert Paths(i)[k] == i.adds[k].path;
      KnownIffAdded(logs, i.table, i.adds[k].path);
    }
  }

  // ----- what recovery does to resolvable groups -----

  // Recovery treats a group as a whole: all of it is committed, or no manifest names any of its paths.
  ghost predicate Resolved(logs: map<string, seq<Record>>, g: seq<Intent>) {
    (forall j :: j in g ==> IsCommitted(logs, j)) || (forall j :: j in g ==> PathSet(j) !! Named(logs))
  }

  ghost predicate Resolvable(logs: map<string, seq<Record>>, es: seq<Entry>) {
    forall id :: Resolved(logs, Pending(es, id))
  }

  predicate BenignOp(logs: map<string, seq<Record>>, op: Op) {
    match op
    case LogLazy(e) => e.Committed?
    case Unlink(p) => p !in Named(logs)
    case _ => false
  }

  // Only commit records and removals of files no manifest names.
  predicate Benign(logs: map<string, seq<Record>>, ops: seq<Op>) {
    forall k :: 0 <= k < |ops| ==> BenignOp(logs, ops[k])
  }

  predicate WillCommit(ops: seq<Op>, id: nat) {
    LogLazy(Committed(id)) in ops
  }

  // The file is removed before the transaction is declared resolved.
  predicate Cleans(ops: seq<Op>, id: nat, p: string) {
    exists m :: 0 <= m < |ops| && ops[m] == Unlink(p) && !WillCommit(ops[..m], id)
  }

  lemma BenignConcat(logs: map<string, seq<Record>>, a: seq<Op>, b: seq<Op>)
    requires Benign(logs, a) && Benign(logs, b)
    ensures Benign(logs, a + b)
  {
  }

  lemma {:induction false} ForwardIsBenign(logs: map<string, seq<Record>>, g: seq<Intent>)
    requires forall j :: j in g ==> IsCommitted(logs, j)
    ensures Benign(logs, ForwardOps(logs, g))
    ensures forall id :: WillCommit(ForwardOps(logs, g), id) <==> exists j :: j in g && j.txn == id
  {
    hide IsCommitted;
    if g != [] {
      var n := |g| - 1;
      var front, last := g[..n], g[n];
      assert g == front + [last];
      ForwardIsBenign(logs, front);
      assert ForwardOps(logs, g) == ForwardOps(logs, front) + [LogLazy(Committed(last.txn))];
      forall id ensures WillCommit(ForwardOps(logs, g), id) <==> WillCommit(ForwardOps(logs, front), id) || id == last.txn {
      }
    }
  }

  lemma {:induction false} UndoIsBenign(logs: map<string, seq<Record>>, g: seq<Intent>)
    requires forall j :: j in g ==> PathSet(j) !! Named(logs)
    ensures Benign(logs, UndoOps(g))
    ensures forall id :: WillCommit(UndoOps(g), id) <==> exists j :: j in g && j.txn == id
  {
    if g != [] {
      var n := |g| - 1;
      var front, last := g[..n], g[n];
      assert g == front + [last];
      UndoIsBenign(logs, front);
      var u := Unlinks(Paths(last));
      forall k | 0 <= k < |u| ensures BenignOp(logs, u[k]) {
        assert Paths(last)[k] in PathSet(last);
      }
      BenignConcat(logs, UndoOps(front), u);
      forall id ensures WillCommit(UndoOps(g), id) <==> WillCommit(UndoOps(front), id) || id == last.txn {
        assert !WillCommit(u, id);
      }
    }
  }

  lemma GroupIsBenign(logs: map<string, seq<Record>>, g: seq<Intent>)
    requires PlainLogs(logs) && Resolved(logs, g)
    ensures Benign(logs, GroupOps(logs, g))
    ensures forall id :: WillCommit(GroupOps(logs, g), id) <==> exists j :: j in g && j.txn == id
  {
    if AnyCommitted(logs, g) {
      var k :| 0 <= k < |g| && IsCommitted(logs, g[k]);
      if PathSet(g[k]) !! Named(logs) {
        UnnamedIsUncommitted(logs, g[k]);
      }
      ForwardIsBenign(logs, g);
    } else {
      forall j | j in g ensures PathSet(j) !! Named(logs) {
        var k :| 0 <= k < |g| && g[k] == j;
        assert !IsCommitted(logs, g[k]);
      }
      UndoIsBenign(logs, g);
    }
  }

  lemma {:induction false} BenignKeepsLogs(d: Disk, ops: seq<Op>)
    requires Benign(d.logs, ops)
    ensures DoAll(d, ops).logs == d.logs
  {
    if ops != [] {
      BenignKeepsLogs(d, ops[..|ops| - 1]);
      assert BenignOp(d.logs, ops[|ops| - 1]);
    }
  }

  lemma {:induction false} RecoveryIsBenign(d: Disk, gs: seq<seq<Intent>>)
    requires PlainLogs(d.logs) && forall g :: g in gs ==> Resolved(d.logs, g)
    ensures Benign(d.logs, RecoveryOps(d, gs))
    ensures forall g, j :: g in gs && j in g ==> WillCommit(RecoveryOps(d, gs), j.txn)
    decreases |gs|
  {
    if gs != [] {
      var first := GroupOps(d.logs, gs[0]);
      GroupIsBenign(d.logs, gs[0]);
      BenignKeepsLogs(d, first);
      RecoveryIsBenign(DoAll(d, first), gs[1..]);
      BenignConcat(d.logs, first, RecoveryOps(DoAll(d, first), gs[1..]));
      forall g, j | g in gs && j in g ensures WillCommit(RecoveryOps(d, gs), j.txn) {
        if g != gs[0] { assert g in gs[1..]; } else { assert WillCommit(first, j.txn); }
      }
    }
  }

  lemma CleansLater(a: seq<Op>, b: seq<Op>, id: nat, p: string)
    requires Cleans(b, id, p) && !WillCommit(a, id)
    ensures Cleans(a + b, id, p)
  {
    var m :| 0 <= m < |b| && b[m] == Unlink(p) && !WillCommit(b[..m], id);
    assert (a + b)[|a| + m] == Unlink(p);
    assert (a + b)[..|a| + m] == a + b[..m];
  }

  lemma CleansEarlier(a: seq<Op>, b: seq<Op>, id: nat, p: string)
    requires Cleans(a, id, p)
    ensures Cleans(a + b, id, p)
  {
    var m :| 0 <= m < |a| && a[m] == Unlink(p) && !WillCommit(a[..m], id);
    assert (a + b)[m] == Unlink(p);
    assert (a + b)[..m] == a[..m];
  }

  lemma UndoCleans(i: Intent, p: string)
    requires p in PathSet(i)
    ensures Cleans(UndoOps([i]), i.txn, p)
  {
    var u := Unlinks(Paths(i));
    assert [i][..0] == [];
    assert UndoOps([i]) == u + [LogLazy(Committed(i.txn))];
    var m :| 0 <= m < |u| && Paths(i)[m] == p;
    assert u[m] == Unlink(p);
    CleansEarlier(u, [LogLazy(Committed(i.txn))], i.txn, p);
  }

  // A lone unpublished intent has all its files removed before it is declared resolved.
  lemma {:induction false} RecoveryCleans(d: Disk, gs: seq<seq<Intent>>, i: Intent, p: string)
    requires PlainLogs(d.logs) && forall g :: g in gs ==> Resolved(d.logs, g)
    requires [i] in gs && !IsCommitted(d.logs, i) && p in PathSet(i)
    requires forall g, j :: g in gs && j in g && j.txn == i.txn ==> g == [i]
    ensures Cleans(RecoveryOps(d, gs), i.txn, p)
    decreases |gs|
  {
    var first := GroupOps(d.logs, gs[0]);
    var rest := RecoveryOps(DoAll(d, first), gs[1..]);
    if gs[0] == [i] {
      assert !AnyCommitted(d.logs, [i]);
      UndoCleans(i, p);
      CleansEarlier(first, rest, i.txn, p);
    } else {
      GroupIsBenign(d.logs, gs[0]);
      BenignKeepsLogs(d, first);
      assert [i] in gs[1..];
      RecoveryCleans(DoAll(d, first), gs[1..], i, p);
      assert !WillCommit(first, i.txn);
      CleansLater(first, rest, i.txn, p);
    }
  }

  // ----- the invariant -----

  ghost predicate NoPending(es: seq<Entry>) {
    forall id :: Pending(es, id) == []
  }

  ghost predicate OnlyPending(es: seq<Entry>, i: Intent) {
    forall id :: Pending(es, id) == if id == i.txn then [i] else []
  }

  // Whatever part of the unsynced log a crash keeps, recovery can resolve it.
  ghost predicate Sane(d: Disk) {
    && PlainLogs(d.logs) && Named(d.logs) <= d.files
    && (forall k :: 0 <= k <= |d.tail| ==> Resolvable(d.logs, Outcome(d.wal, d.tail[..k])))
  }

  function After(s: State): map<string, seq<Record>> {
    Published(s.before.logs, s.intent.table, s.intent.commitTs, s.intent.adds, s.intent.dvUpdates)
  }

  ghost predicate CommittingInv(s: State, n: nat) {
    var i, d, staged := s.intent, s.disk, |Paths(s.intent)|;
    && n <= staged + 4
    && (n <= staged ==> NoPending(Content(d)) && !s.logged)
    && (forall k :: 0 <= k < |Paths(i)| && k < n ==> Paths(i)[k] in d.files)
    && d.logs == (if n <= staged + 1 then s.before.logs else After(s))
    && (n == staged + 1 || n == staged + 2 ==> d.tail == [] && OnlyPending(d.wal, i))
    && (n >= staged + 3 ==> NoPending(Content(d)))
  }

  ghost predicate RecoveringInv(d: Disk, ops: seq<Op>) {
    && Benign(d.logs, ops)
    && forall id :: Pending(Content(d), id) == [] || WillCommit(ops, id)
  }

  // While a staged file of a durable, unpublished intent is left, every crash
  // still finds the intent pending, and the recovery under way will remove the file.
  ghost predicate CleanupInv(s: State, p: string) {
    p in s.disk.files ==>
      && (forall k :: 0 <= k <= |s.disk.tail| ==> Pending(Outcome(s.disk.wal, s.disk.tail[..k]), s.intent.txn) == [s.intent])
      && !s.phase.Idle?
      && (s.phase.Recovering? ==> s.phase.n <= |s.phase.ops| && Cleans(s.phase.ops[s.phase.n..], s.intent.txn, p))
  }

  ghost predicate History(s: State) {
    && Startable(s.before, s.intent)
    && PlainLogs(s.before.logs) && Named(s.before.logs) <= s.before.files
    && (s.disk.logs == s.before.logs || s.disk.logs == After(s))
    && s.disk.files <= s.before.files + PathSet(s.intent)
    && (s.logged && s.disk.logs == s.before.logs ==> forall p :: p in PathSet(s.intent) ==> CleanupInv(s, p))
  }

  ghost predicate Inv(s: State) {
    && Sane(s.disk) && History(s)
    && match s.phase
       case Idle => NoPending(Content(s.disk))
       case Committing(n) => CommittingInv(s, n)
       case Recovering(ops, n) => n <= |ops| && RecoveringInv(s.disk, ops[n..])
  }

  // ----- every step keeps the invariant -----

  lemma NoPendingResolvable(logs: map<string, seq<Record>>, es: seq<Entry>)
    requires NoPending(es)
    ensures Resolvable(logs, es)
  {
  }

  lemma PendingAppend(es: seq<Entry>, e: Entry, id: nat)
    ensures Pending(es + [e], id)
      == if e == Committed(id) then []
         else Pending(es, id) + if e.Intend? && e.intent.txn == id then [e.intent] else []
  {
    IntentsAppend(es, e, id);
  }

  // One more unsynced log write: the outcomes of a crash are the old ones and the new content.
  lemma LazyKeepsSane(d: Disk, x: LazyOp)
    requires Sane(d) && Resolvable(d.logs, Outcome(d.wal, d.tail + [x]))
    ensures Sane(d.(tail := d.tail + [x]))
  {
    hide Resolvable, Outcome, Named, PlainLogs;
    var tail := d.tail + [x];
    forall k | 0 <= k <= |tail| ensures Resolvable(d.logs, Outcome(d.wal, tail[..k])) {
      if k <= |d.tail| { assert tail[..k] == d.tail[..k]; } else { assert tail[..k] == tail; }
    }
  }

  lemma LazyContent(d: Disk, e: Entry)
    ensures Content(Do(d, LogLazy(e))) == Content(d) + [e]
  {
    assert (d.tail + [Append(e)])[..|d.tail|] == d.tail;
  }

  lemma ContentOutcome(d: Disk)
    ensures Outcome(d.wal, d.tail[..|d.tail|]) == Content(d)
  {
    assert d.tail[..|d.tail|] == d.tail;
  }

  lemma CommitRecordResolvable(logs: map<string, seq<Record>>, es: seq<Entry>, txn: nat)
    requires Resolvable(logs, es)
    ensures Resolvable(logs, es + [Committed(txn)])
  {
    hide Resolved;
    forall id ensures Resolved(logs, Pending(es + [Committed(txn)], id)) {
      PendingAppend(es, Committed(txn), id);
      if id == txn { NothingResolved(logs); } else { assert Resolved(logs, Pending(es, id)); }
    }
  }

  lemma NothingResolved(logs: map<string, seq<Record>>)
    ensures Resolved(logs, [])
  {
  }

  lemma CommitRecordKeepsSane(d: Disk, txn: nat)
    requires Sane(d)
    ensures Sane(Do(d, LogLazy(Committed(txn))))
  {
    ContentOutcome(d);
    CommitRecordResolvable(d.logs, Content(d), txn);
    LazyContent(d, Committed(txn));
    LazyKeepsSane(d, Append(Committed(txn)));
  }

  lemma BeginKeeps(s: State, i: Intent, s': State)
    requires Inv(s) && Next(s, Begin(i), s')
    ensures Inv(s')
  {
  }

  lemma TxnOpAt(i: Intent, n: nat)
    requires n < |TxnOps(i)|
    ensures TxnOps(i)[n]
      == var staged := |Paths(i)|;
         if n < staged then Stage(Paths(i)[n])
         else if n == staged then LogSync(Intend(i))
         else if n == staged + 1 then PublishOf(i)
         else if n == staged + 2 then LogLazy(Committed(i.txn))
         else LogTruncate
  {
    var staged := |Paths(i)|;
    if n >= staged && n < staged + 3 {
      assert TxnOps(i)[n] == CommitOps(i)[n - staged];
    }
  }

  lemma StageKeeps(s: State, s': State, n: nat)
    requires Inv(s) && s.phase == Committing(n) && n < |Paths(s.intent)| && Next(s, Tick, s')
    ensures Inv(s')
  {
    TxnOpAt(s.intent, n);
    assert Paths(s.intent)[n] in PathSet(s.intent);
  }

  lemma LoneIntentResolvable(logs: map<string, seq<Record>>, es: seq<Entry>, i: Intent)
    requires PlainLogs(logs) && NoPending(es)
    requires PathSet(i) !! Named(logs)
    ensures OnlyPending(es + [Intend(i)], i) && Resolvable(logs, es + [Intend(i)])
  {
    hide IsCommitted, Named, PlainLogs, Pending;
    forall id ensures Pending(es + [Intend(i)], id) == if id == i.txn then [i] else [] {
      PendingAppend(es, Intend(i), id);
    }
  }

  lemma OnlyPendingResolvable(logs: map<string, seq<Record>>, es: seq<Entry>, i: Intent)
    requires OnlyPending(es, i) && (IsCommitted(logs, i) || PathSet(i) !! Named(logs))
    ensures Resolvable(logs, es)
  {
  }

  lemma SyncKeeps(s: State, s': State, n: nat)
    requires Inv(s) && s.phase == Committing(n) && n == |Paths(s.intent)| && Next(s, Tick, s')
    ensures Inv(s')
  {
    TxnOpAt(s.intent, n);
    LoneIntentResolvable(s.disk.logs, Content(s.disk), s.intent);
    assert s'.disk.tail[..0] == [];
    assert Sane(s'.disk);
    assert CommittingInv(s', n + 1);
  }

  lemma PublishKeeps(s: State, s': State, n: nat)
    requires Inv(s) && s.phase == Committing(n) && n == |Paths(s.intent)| + 1 && Next(s, Tick, s')
    ensures Inv(s')
  {
    hide IsCommitted, Pending, Resolvable, PlainLogs, Published, Named;
    var i := s.intent;
    TxnOpAt(i, n);
    PublishNames(s.disk.logs, i);
    assert s'.disk.logs == After(s);
    if i.adds != [] {
      PublishCommits(s.disk.logs, i);
      PublishedDiffers(s.disk.logs, i);
    } else {
      assert PathSet(i) == {};
    }
    OnlyPendingResolvable(s'.disk.logs, s'.disk.wal, i);
    assert s'.disk.tail[..0] == [];
    assert Sane(s'.disk);
    assert CommittingInv(s', n + 1);
  }

  lemma PublishedDiffers(logs: map<string, seq<Record>>, i: Intent)
    requires i.adds != [] || i.dvUpdates != []
    ensures Published(logs, i.table, i.commitTs, i.adds, i.dvUpdates) != logs
  {
    var after := Published(logs, i.table, i.commitTs, i.adds, i.dvUpdates);
    assert |LogOf(after, i.table)| == |LogOf(logs, i.table)| + 1;
  }

  // Once published, no cleanup is owed.
  lemma NothingOwed(s: State)
    requires Startable(s.before, s.intent) && s.disk.logs == After(s) && s.disk.logs == s.before.logs
    ensures PathSet(s.intent) == {}
  {
    if s.intent.adds != [] || s.intent.dvUpdates != [] { PublishedDiffers(s.before.logs, s.intent); }
  }

  lemma TxnSize(i: Intent)
    ensures |TxnOps(i)| == |Paths(i)| + 4
  {
  }

  lemma ContentAll(d: Disk)
    requires d.tail == []
    ensures Content(d) == d.wal
  {
  }

  lemma OnlyOne(es: seq<Entry>, i: Intent, id: nat)
    requires OnlyPending(es, i)
    ensures Pending(es, id) == if id == i.txn then [i] else []
  {
  }

  lemma LazyCommitKeeps(s: State, s': State, n: nat)
    requires Inv(s) && s.phase == Committing(n) && n == |Paths(s.intent)| + 2 && Next(s, Tick, s')
    ensures Inv(s')
  {
    hide IsCommitted, Pending, Sane, PlainLogs, Published, Named, CleanupInv, Startable, Content, PathSet, Paths, OnlyPending;
    var i := s.intent;
    TxnOpAt(i, n);
    TxnSize(i);
    ContentAll(s.disk);
    CommitRecordKeepsSane(s.disk, i.txn);
    LazyContent(s.disk, Committed(i.txn));
    forall id ensures Pending(Content(s'.disk), id) == [] {
      PendingAppend(s.disk.wal, Committed(i.txn), id);
      OnlyOne(s.disk.wal, i, id);
    }
    if s.disk.logs == s.before.logs { NothingOwed(s); }
  }

  lemma TruncateKeeps(s: State, s': State, n: nat)
    requires Inv(s) && s.phase == Committing(n) && n == |Paths(s.intent)| + 3 && Next(s, Tick, s')
    ensures Inv(s')
  {
    TxnOpAt(s.intent, n);
    if Content(s.disk) != [] {
      NoPendingResolvable(s.disk.logs, []);
      assert Outcome(s.disk.wal, s.disk.tail + [Truncate]) == [];
      LazyKeepsSane(s.disk, Truncate);
    }
    if s.disk.logs == s.before.logs { NothingOwed(s); }
  }

  lemma CommitTickKeeps(s: State, s': State, n: nat)
    requires Inv(s) && s.phase == Committing(n) && Next(s, Tick, s')
    ensures Inv(s')
  {
    var staged := |Paths(s.intent)|;
    if n < staged {
      StageKeeps(s, s', n);
    } else if n == staged {
      SyncKeeps(s, s', n);
    } else if n == staged + 1 {
      PublishKeeps(s, s', n);
    } else if n == staged + 2 {
      LazyCommitKeeps(s, s', n);
    } else if n == staged + 3 {
      TruncateKeeps(s, s', n);
    } else if s.disk.logs == s.before.logs {
      NothingOwed(s);
    }
  }

  // The head of a recovery removes an unnamed file or declares a transaction resolved.
  lemma RecoverOpKeeps(d: Disk, ops: seq<Op>)
    requires Sane(d) && RecoveringInv(d, ops) && ops != []
    ensures Sane(Do(d, ops[0])) && RecoveringInv(Do(d, ops[0]), ops[1..])
  {
    assert BenignOp(d.logs, ops[0]);
    var d' := Do(d, ops[0]);
    assert ops == [ops[0]] + ops[1..];
    assert forall id :: WillCommit(ops, id) <==> ops[0] == LogLazy(Committed(id)) || WillCommit(ops[1..], id);
    assert forall k :: 0 <= k < |ops[1..]| ==> ops[1..][k] == ops[k + 1];
    assert Benign(d.logs, ops[1..]);
    if ops[0].LogLazy? {
      var txn := ops[0].e.txn;
      CommitRecordKeepsSane(d, txn);
      LazyContent(d, Committed(txn));
      forall id ensures Pending(Content(d'), id) == [] || WillCommit(ops[1..], id) {
        PendingAppend(Content(d), Committed(txn), id);
      }
    }
  }

  lemma RecoverOpOwes(s: State, s': State, p: string)
    requires s.phase.Recovering? && s.phase.n < |s.phase.ops| && Next(s, Tick, s')
    requires Benign(s.disk.logs, s.phase.ops[s.phase.n..]) && CleanupInv(s, p)
    ensures CleanupInv(s', p)
  {
    var ops, i, d := s.phase.ops[s.phase.n..], s.intent, s.disk;
    assert BenignOp(d.logs, ops[0]);
    assert s.phase.ops[s.phase.n + 1..] == ops[1..];
    if p in s'.disk.files {
      var m :| 0 <= m < |ops| && ops[m] == Unlink(p) && !WillCommit(ops[..m], i.txn);
      assert m > 0;
      assert ops[..m][0] == ops[0];
      assert ops[1..][..m - 1] == ops[..m][1..];
      assert ops[1..][m - 1] == Unlink(p);
      if ops[0].LogLazy? {
        var tail := d.tail + [Append(ops[0].e)];
        forall k | 0 <= k <= |tail| ensures Pending(Outcome(d.wal, tail[..k]), i.txn) == [i] {
          if k <= |d.tail| {
            assert tail[..k] == d.tail[..k];
          } else {
            assert tail[..k] == tail;
            ContentOutcome(d);
            LazyContent(d, ops[0].e);
            PendingAppend(Content(d), ops[0].e, i.txn);
          }
        }
      }
    }
  }

  lemma RecoverTickKeeps(s: State, s': State)
    requires Inv(s) && s.phase.Recovering? && Next(s, Tick, s')
    ensures Inv(s')
  {
    hide Sane, CleanupInv, Named, PlainLogs, PathSet, Startable, Published;
    var ops, n := s.phase.ops, s.phase.n;
    if n < |ops| {
      assert ops[n..][1..] == ops[n + 1..] && ops[n..][0] == ops[n];
      RecoverOpKeeps(s.disk, ops[n..]);
      assert BenignOp(s.disk.logs, ops[n..][0]);
      if s'.logged && s'.disk.logs == s'.before.logs {
        forall p | p in PathSet(s.intent) ensures CleanupInv(s', p) {
          RecoverOpOwes(s, s', p);
        }
      }
    } else {
      assert ops[n..] == [];
      if s'.logged && s'.disk.logs == s'.before.logs {
        forall p | p in PathSet(s.intent) ensures CleanupInv(s', p) {
          DoneOwesNothing(s, p);
        }
      }
    }
  }

  lemma DoneOwesNothing(s: State, p: string)
    requires s.phase.Recovering? && s.phase.n >= |s.phase.ops| && CleanupInv(s, p)
    ensures CleanupInv(s.(phase := Idle), p)
  {
  }

  lemma GroupsResolved(logs: map<string, seq<Record>>, es: seq<Entry>)
    requires Resolvable(logs, es)
    ensures forall g :: g in Groups(es) ==> Resolved(logs, g)
    ensures forall g, j :: g in Groups(es) && j in g ==> g == Pending(es, j.txn)
    ensures forall id :: Pending(es, id) != [] ==> Pending(es, id) in Groups(es)
  {
    hide Resolved;
    var ids := FirstSeen(es);
    GroupsArePending(es, ids);
    forall g | g in Groups(es) ensures Resolved(logs, g) && forall j :: j in g ==> g == Pending(es, j.txn) {
      var id :| id in ids && g == Pending(es, id);
      PendingIsSeen(es, id);
    }
    forall id | Pending(es, id) != [] ensures Pending(es, id) in Groups(es) {
      PendingIsSeen(es, id);
    }
  }

  // What a reopened database sets out to do.
  lemma ReopenPlan(d: Disk)
    requires Sane(d) && d.tail == []
    ensures RecoveringInv(d, RecoveryOps(d, Groups(d.wal)))
  {
    hide RecoveryOps, Groups, Benign, Resolved, Named, PlainLogs;
    assert d.tail[..0] == [];
    assert Resolvable(d.logs, Outcome(d.wal, d.tail[..0]));
    var gs := Groups(d.wal);
    GroupsResolved(d.logs, d.wal);
    RecoveryIsBenign(d, gs);
    forall id ensures Pending(Content(d), id) == [] || WillCommit(RecoveryOps(d, gs), id) {
      PendingIsSeen(d.wal, id);
      var g := Pending(d.wal, id);
      if g != [] { assert g[0] in g; }
    }
  }

  lemma ReopenCleans(d: Disk, i: Intent, p: string)
    requires Sane(d) && d.tail == [] && Pending(d.wal, i.txn) == [i]
    requires p in PathSet(i) && !IsCommitted(d.logs, i)
    ensures Cleans(RecoveryOps(d, Groups(d.wal)), i.txn, p)
  {
    assert d.tail[..0] == [];
    assert Resolvable(d.logs, Outcome(d.wal, d.tail[..0]));
    GroupsResolved(d.logs, d.wal);
    RecoveryCleans(d, Groups(d.wal), i, p);
  }

  lemma CrashedIsSane(d: Disk, kept: nat)
    requires Sane(d) && kept <= |d.tail|
    ensures Sane(Crashed(d, kept))
  {
    var d' := Crashed(d, kept);
    assert d'.tail[..0] == [];
  }

  lemma CrashKeeps(s: State, kept: nat, s': State)
    requires Inv(s) && Next(s, Crash(kept), s')
    ensures Inv(s')
  {
    hide Sane, RecoveringInv, RecoveryOps, Groups, Pending, Named, PlainLogs, Published, IsCommitted;
    CrashedIsSane(s.disk, kept);
    ReopenPlan(s'.disk);
    assert s'.phase.ops[0..] == s'.phase.ops;
    if s'.logged && s'.disk.logs == s'.before.logs {
      forall p | p in PathSet(s.intent) ensures CleanupInv(s', p) {
        if p in s'.disk.files {
          assert CleanupInv(s, p);
          assert s'.disk.tail[..0] == [];
          BeforeIsUncommitted(s);
          ReopenCleans(s'.disk, s.intent, p);
        }
      }
    }
  }

  lemma BeforeIsUncommitted(s: State)
    requires History(s)
    ensures !IsCommitted(s.before.logs, s.intent)
  {
    UnnamedIsUncommitted(s.before.logs, s.intent);
  }

  lemma NextKeeps(s: State, a: Action, s': State)
    requires Inv(s) && Next(s, a, s')
    ensures Inv(s')
  {
    hide Inv, Next;
    match a {
      case Begin(i) => BeginKeeps(s, i, s');
      case Crash(kept) => CrashKeeps(s, kept, s');
      case Tick => TickKeeps(s, s');
    }
  }

  lemma TickKeeps(s: State, s': State)
    requires Inv(s) && Next(s, Tick, s')
    ensures Inv(s')
  {
    if s.phase.Committing? {
      CommitTickKeeps(s, s', s.phase.n);
    } else {
      RecoverTickKeeps(s, s');
    }
  }

  // ----- whole runs -----

  ghost predicate Clean(d: Disk) {
    PlainLogs(d.logs) && Named(d.logs) <= d.files && d.tail == [] && NoPending(d.wal)
  }

  ghost predicate Run(states: seq<State>, actions: seq<Action>) {
    && |states| == |actions| + 1
    && Clean(states[0].disk)
    && states[0] == State(states[0].disk, Idle, Intent(0, 0, "-", [], []), states[0].disk, false)
    && forall k :: 0 <= k < |actions| ==> Next(states[k], actions[k], states[k + 1])
  }

  lemma FreshStartIsInv(s: State)
    requires Clean(s.disk) && s == State(s.disk, Idle, Intent(0, 0, "-", [], []), s.disk, false)
    ensures Inv(s)
  {
    assert s.disk.tail[..0] == [];
    NoPendingResolvable(s.disk.logs, s.disk.wal);
  }

  lemma {:induction false} RunKeeps(states: seq<State>, actions: seq<Action>, n: nat)
    requires Run(states, actions) && n <= |actions|
    ensures Inv(states[n])
  {
    if n == 0 {
      FreshStartIsInv(states[0]);
    } else {
      RunKeeps(states, actions, n - 1);
      NextKeeps(states[n - 1], actions[n - 1], states[n]);
    }
  }

  // In every reachable state, whatever crashed in between, each file a manifest
  // names is on disk: recovery never removes a published segment or deletion vector.
  lemma NamedFilesSurvive(states: seq<State>, actions: seq<Action>, n: nat)
    requires Run(states, actions) && n <= |actions|
    ensures Named(states[n].disk.logs) <= states[n].disk.files
  {
    RunKeeps(states, actions, n);
  }

  lemma {:induction false} StillTheSame(states: seq<State>, actions: seq<Action>, m: nat, n: nat, i: Intent)
    requires Run(states, actions) && m < n <= |actions|
    requires actions[m] == Begin(i) && forall k :: m < k < n ==> !actions[k].Begin?
    ensures states[n].intent == i && states[n].before == states[m].disk
    decreases n
  {
    assert Next(states[n - 1], actions[n - 1], states[n]);
    if n > m + 1 { StillTheSame(states, actions, m, n - 1, i); }
  }

  // The step that makes the intent durable: before it lie only the staged files.
  predicate SyncsIntent(s: State, a: Action, i: Intent) {
    a.Tick? && s.phase == Committing(|i.adds| + |i.dvUpdates|)
  }

  lemma SyncStep(i: Intent, c: nat)
    requires c < |TxnOps(i)|
    ensures TxnOps(i)[c].LogSync? <==> c == |i.adds| + |i.dvUpdates|
    ensures TxnOps(i)[|i.adds| + |i.dvUpdates|] == LogSync(Intend(i))
  {
  }

  lemma {:induction false} LoggedIs(states: seq<State>, actions: seq<Action>, m: nat, n: nat, i: Intent)
    requires Run(states, actions) && m < n <= |actions|
    requires actions[m] == Begin(i) && forall k :: m < k < n ==> !actions[k].Begin?
    ensures states[n].logged <==> exists k :: m < k < n && SyncsIntent(states[k], actions[k], i)
    decreases n
  {
    hide TxnOps;
    assert Next(states[n - 1], actions[n - 1], states[n]);
    if n > m + 1 {
      LoggedIs(states, actions, m, n - 1, i);
      StillTheSame(states, actions, m, n - 1, i);
      var s := states[n - 1];
      if s.phase.Committing? && s.phase.n < |TxnOps(i)| { SyncStep(i, s.phase.n); }
      assert |TxnOps(i)| == |i.adds| + |i.dvUpdates| + 4;
    }
  }

  // A transaction is all or nothing. At any later moment, through any number of
  // crashes and interrupted recoveries, every table shows its view from before
  // the transaction or the view with the whole transaction in it; and once
  // things are quiet, a published transaction has all its files, while one
  // whose intent was durable but never published has left none behind.
  lemma AllOrNothing(states: seq<State>, actions: seq<Action>, m: nat, n: nat, i: Intent)
    requires Run(states, actions) && m < n <= |actions|
    requires actions[m] == Begin(i) && forall k :: m < k < n ==> !actions[k].Begin?
    ensures var before, now := states[m].disk.logs, states[n].disk.logs;
      var after := Published(before, i.table, i.commitTs, i.adds, i.dvUpdates);
      && (now == before || now == after)
      && ((forall t :: TimeTravel.ViewAt(LogOf(now, t), MAX_TS) == TimeTravel.ViewAt(LogOf(before, t), MAX_TS))
          || (forall t :: TimeTravel.ViewAt(LogOf(now, t), MAX_TS) == TimeTravel.ViewAt(LogOf(after, t), MAX_TS)))
      && (now == after ==> PathSet(i) <= states[n].disk.files)
      && (now == before && states[n].phase.Idle? && (exists k :: m < k < n && SyncsIntent(states[k], actions[k], i)) ==>
            PathSet(i) !! states[n].disk.files)
  {
    RunKeeps(states, actions, n);
    StillTheSame(states, actions, m, n, i);
    LoggedIs(states, actions, m, n, i);
    var s := states[n];
    PublishNames(s.before.logs, i);
    if s.logged && s.disk.logs == s.before.logs && s.phase.Idle? {
      forall p | p in PathSet(i) ensures p !in s.disk.files {
        assert CleanupInv(s, p);
      }
    }
  }

  // A run: from an empty store, a transaction with a segment and a deletion vector
  // gets as far as its manifest record, then the process dies.
  lemma ACrash(p: string, dv: string)
    requires p != dv && p != "" && dv != ""
    ensures var i := Intent(1, 1, "t", [SegmentAdd(p, 10)], [DVUpdate("old", dv)]);
      var d := Disk([], [], map[], {});
      var s := (n: nat, files: set<string>, wal: seq<Entry>, logs: map<string, seq<Record>>) =>
        State(Disk(wal, [], logs, files), Committing(n), i, d, n > 2);
      var named := Published(map[], "t", 1, i.adds, i.dvUpdates);
      var states := [State(d, Idle, Intent(0, 0, "-", [], []), d, false), s(0, {}, [], map[]), s(1, {p}, [], map[]), s(2, {p, dv}, [], map[]),
                     s(3, {p, dv}, [Intend(i)], map[]), s(4, {p, dv}, [Intend(i)], named)];
      var last := states[5];
      var recovering := last.(phase := Recovering(RecoveryOps(last.disk, Groups(last.disk.wal)), 0));
      Run(states + [recovering], [Begin(i), Tick, Tick, Tick, Tick, Crash(0)])
  {
    hide Published, RecoveryOps, Groups, TxnOps, Paths, NoPending;
    var i := Intent(1, 1, "t", [SegmentAdd(p, 10)], [DVUpdate("old", dv)]);
    var none: seq<Entry> := [];
    assert none + [Intend(i)] == [Intend(i)];
    TwoFiles(i, p, dv);
    assert PathSet(i) == {p, dv};
    KeptNothing(Disk([Intend(i)], [], Published(map[], "t", 1, i.adds, i.dvUpdates), {p, dv}));
    NothingYet();
  }

  lemma TwoFiles(i: Intent, p: string, dv: string)
    requires i.adds == [SegmentAdd(p, 10)] && i.dvUpdates == [DVUpdate("old", dv)]
    ensures Paths(i) == [p, dv]
    ensures TxnOps(i) == [Stage(p), Stage(dv), LogSync(Intend(i)), PublishOf(i), LogLazy(Committed(i.txn)), LogTruncate]
  {
    assert Paths(i) == [p, dv];
    assert Stages([p, dv]) == [Stage(p), Stage(dv)];
  }

  lemma NothingYet()
    ensures NoPending([]) && Clean(Disk([], [], map[], {}))
  {
  }

  lemma {:induction false} StagesDo(d: Disk, ps: seq<string>)
    ensures DoAll(d, Stages(ps)) == d.(files := d.files + set p | p in ps)
  {
    hide Published, Outcome;
    if ps != [] {
      var n := |ps| - 1;
      StagesDo(d, ps[..n]);
      assert Stages(ps) == Stages(ps[..n]) + [Stage(ps[n])];
      DoStep(d, Stages(ps[..n]), Stage(ps[n]));
      assert ps == ps[..n] + [ps[n]];
      assert (set p | p in ps) == (set p | p in ps[..n]) + {ps[n]};
    }
  }

  // Left alone, the steps of a transaction publish it.
  lemma CommitPublishes(d: Disk, i: Intent)
    ensures DoAll(d, TxnOps(i)).logs == Published(d.logs, i.table, i.commitTs, i.adds, i.dvUpdates)
    ensures DoAll(d, TxnOps(i)).files == d.files + PathSet(i)
    ensures Content(DoAll(d, TxnOps(i))) == []
  {
    hide Published, DoAll, Stages, Paths;
    StagesDo(d, Paths(i));
    var staged := DoAll(d, Stages(Paths(i)));
    DoAllSplit(d, Stages(Paths(i)), CommitOps(i));
    DoAllSplit(d, Stages(Paths(i)) + CommitOps(i), [LogTruncate]);
    DoOne(DoAll(staged, CommitOps(i)), LogTruncate);
    CommitDoes(staged, i);
    var c := DoAll(staged, CommitOps(i));
    assert (c.tail + [Truncate])[|c.tail|] == Truncate;
  }

  lemma CommitDoes(d: Disk, i: Intent)
    ensures DoAll(d, CommitOps(i))
      == Disk(Content(d) + [Intend(i)], [Append(Committed(i.txn))],
              Published(d.logs, i.table, i.commitTs, i.adds, i.dvUpdates), d.files)
  {
    hide Published, Outcome, DoAll;
    var a, b, c := LogSync(Intend(i)), PublishOf(i), LogLazy(Committed(i.txn));
    assert CommitOps(i) == [a] + [b] + [c];
    DoOne(d, a);
    DoStep(d, [a], b);
    DoStep(d, [a] + [b], c);
  }

  // ----- recovery repeated -----

  function RecoverAll(d: Disk): Disk {
    DoAll(d, RecoveryOps(d, Groups(d.wal)))
  }

  function Unlinked(ops: seq<Op>): (ps: set<string>) {
    set k | 0 <= k < |ops| && ops[k].Unlink? :: ops[k].path
  }

  lemma {:induction false} BenignFiles(d: Disk, ops: seq<Op>)
    requires Benign(d.logs, ops)
    ensures DoAll(d, ops).files == d.files - Unlinked(ops)
    ensures DoAll(d, ops).wal == d.wal
  {
    if ops != [] {
      var n := |ops| - 1;
      BenignFiles(d, ops[..n]);
      assert BenignOp(d.logs, ops[n]);
      assert ops == ops[..n] + [ops[n]];
      UnlinkedConcat(ops[..n], [ops[n]]);
    }
  }

  lemma UnlinkedConcat(a: seq<Op>, b: seq<Op>)
    ensures Unlinked(a + b) == Unlinked(a) + Unlinked(b)
  {
    forall p ensures p in Unlinked(a + b) <==> p in Unlinked(a) + Unlinked(b) {
      if p in Unlinked(a) { var k :| 0 <= k < |a| && a[k] == Unlink(p); assert (a + b)[k] == a[k]; }
      if p in Unlinked(b) { var k :| 0 <= k < |b| && b[k] == Unlink(p); assert (a + b)[|a| + k] == b[k]; }
    }
  }

  lemma {:induction false} ForwardUnlinks(logs: map<string, seq<Record>>, g: seq<Intent>)
    ensures Unlinked(ForwardOps(logs, g)) == {}
  {
    if g != [] {
      var n := |g| - 1;
      ForwardUnlinks(logs, g[..n]);
      UnlinkedConcat(ForwardOps(logs, g[..n]), if IsCommitted(logs, g[n]) then [LogLazy(Committed(g[n].txn))] else CommitOps(g[n]));
    }
  }

  predicate DeadPath(logs: map<string, seq<Record>>, g: seq<Intent>, p: string) {
    !AnyCommitted(logs, g) && exists j :: j in g && p in PathSet(j)
  }

  lemma {:induction false} UndoUnlinks(g: seq<Intent>, p: string)
    ensures p in Unlinked(UndoOps(g)) <==> exists j :: j in g && p in PathSet(j)
  {
    if g != [] {
      var n := |g| - 1;
      var front, last := g[..n], g[n];
      assert g == front + [last];
      UndoUnlinks(front, p);
      var u := Unlinks(Paths(last));
      UnlinkedConcat(UndoOps(front), u);
      UnlinkedConcat(UndoOps(front) + u, [LogLazy(Committed(last.txn))]);
      if p in PathSet(last) {
        var k :| 0 <= k < |Paths(last)| && Paths(last)[k] == p;
        assert u[k] == Unlink(p);
      }
    }
  }

  // Recovery removes exactly the files of the groups in which nothing committed.
  lemma {:induction false} RecoveryUnlinks(d: Disk, gs: seq<seq<Intent>>, p: string)
    requires PlainLogs(d.logs) && forall g :: g in gs ==> Resolved(d.logs, g)
    ensures p in Unlinked(RecoveryOps(d, gs)) <==> exists g :: g in gs && DeadPath(d.logs, g, p)
    decreases |gs|
  {
    hide PlainLogs, IsCommitted, PathSet, ForwardOps, UndoOps, Resolved, Benign;
    if gs != [] {
      var first := GroupOps(d.logs, gs[0]);
      GroupIsBenign(d.logs, gs[0]);
      BenignKeepsLogs(d, first);
      var d1 := DoAll(d, first);
      RecoveryUnlinks(d1, gs[1..], p);
      UnlinkedConcat(first, RecoveryOps(d1, gs[1..]));
      ForwardUnlinks(d.logs, gs[0]);
      UndoUnlinks(gs[0], p);
      assert gs == [gs[0]] + gs[1..];
      assert p in Unlinked(first) <==> DeadPath(d.logs, gs[0], p);
    }
  }

  // Single-table transactions leave one intent per transaction.
  ghost predicate Lone(es: seq<Entry>) {
    forall id :: |Pending(es, id)| <= 1
  }

  lemma {:induction false} BenignTail(d: Disk, ops: seq<Op>, kept: nat)
    requires d.tail == [] && Benign(d.logs, ops) && kept <= |DoAll(d, ops).tail|
    ensures var es := Outcome(d.wal, DoAll(d, ops).tail[..kept]);
      forall id :: Pending(es, id) == Pending(d.wal, id) || (Pending(es, id) == [] && WillCommit(ops, id))
    decreases |ops|
  {
    hide Published, Pending;
    if ops == [] {
      assert d.tail[..kept] == [];
    } else {
      var n := |ops| - 1;
      var before := DoAll(d, ops[..n]);
      assert ops == ops[..n] + [ops[n]];
      assert BenignOp(d.logs, ops[n]);
      var tail := DoAll(d, ops).tail;
      if kept <= |before.tail| {
        BenignTail(d, ops[..n], kept);
        assert tail[..kept] == before.tail[..kept];
      } else {
        BenignTail(d, ops[..n], |before.tail|);
        assert before.tail[..|before.tail|] == before.tail;
        assert tail[..kept] == before.tail + [Append(ops[n].e)];
        BenignWal(d, ops[..n]);
        LazyContent(before, ops[n].e);
        forall id { PendingAppend(Content(before), ops[n].e, id); }
      }
    }
  }

  lemma BenignWal(d: Disk, ops: seq<Op>)
    requires Benign(d.logs, ops)
    ensures DoAll(d, ops).wal == d.wal
  {
    BenignFiles(d, ops);
  }

  // The groups a second recovery judges are among those the first one judged.
  lemma SecondRecoveryRemovesNoMore(d: Disk, ops: seq<Op>, kept: nat, p: string)
    requires Sane(d) && d.tail == [] && Benign(d.logs, ops) && kept <= |DoAll(d, ops).tail|
    requires Sane(DoAll(d, ops))
    ensures var d2 := Crashed(DoAll(d, ops), kept);
      && d2.logs == d.logs
      && (p in Unlinked(RecoveryOps(d2, Groups(d2.wal))) ==> p in Unlinked(RecoveryOps(d, Groups(d.wal))))
  {
    hide RecoveryOps, Groups, Outcome, Named, PlainLogs, Resolved, Benign, DeadPath, Unlinked;
    var d1 := DoAll(d, ops);
    var d2 := Crashed(d1, kept);
    BenignKeepsLogs(d, ops);
    CrashedIsSane(d1, kept);
    BenignWal(d, ops);
    BenignTail(d, ops, kept);
    SaneGroups(d);
    SaneGroups(d2);
    RecoveryUnlinks(d, Groups(d.wal), p);
    RecoveryUnlinks(d2, Groups(d2.wal), p);
    if g: seq<Intent> :| g in Groups(d2.wal) && DeadPath(d2.logs, g, p) {
      DeadIsNonEmpty(d2.logs, g, p);
      assert g == Pending(d2.wal, g[0].txn);
      assert Pending(d.wal, g[0].txn) in Groups(d.wal);
    }
  }

  lemma DeadIsNonEmpty(logs: map<string, seq<Record>>, g: seq<Intent>, p: string)
    requires DeadPath(logs, g, p)
    ensures g != [] && g[0] in g
  {
  }

  lemma SaneGroups(d: Disk)
    requires Sane(d) && d.tail == []
    ensures PlainLogs(d.logs)
    ensures forall g :: g in Groups(d.wal) ==> Resolved(d.logs, g)
    ensures forall g, j :: g in Groups(d.wal) && j in g ==> g == Pending(d.wal, j.txn)
    ensures forall id :: Pending(d.wal, id) != [] ==> Pending(d.wal, id) in Groups(d.wal)
  {
    assert d.tail[..0] == [];
    assert Resolvable(d.logs, Outcome(d.wal, d.tail[..0]));
    GroupsResolved(d.logs, d.wal);
  }

  lemma {:induction false} BenignRunIsSane(d: Disk, ops: seq<Op>)
    requires Sane(d) && Benign(d.logs, ops)
    ensures Sane(DoAll(d, ops))
    decreases |ops|
  {
    if ops != [] {
      var n := |ops| - 1;
      BenignRunIsSane(d, ops[..n]);
      BenignKeepsLogs(d, ops[..n]);
      assert BenignOp(d.logs, ops[n]);
      if ops[n].LogLazy? { CommitRecordKeepsSane(DoAll(d, ops[..n]), ops[n].e.txn); }
    }
  }

  // A file the first recovery would remove and had not removed when it crashed
  // belongs to an intent that is still pending, so the second one removes it.
  lemma SecondRecoveryFinishes(d: Disk, n: nat, kept: nat, p: string)
    requires Sane(d) && d.tail == [] && Lone(d.wal) && n <= |RecoveryOps(d, Groups(d.wal))|
    requires Benign(d.logs, RecoveryOps(d, Groups(d.wal))[..n])
    requires kept <= |DoAll(d, RecoveryOps(d, Groups(d.wal))[..n]).tail|
    requires p in Unlinked(RecoveryOps(d, Groups(d.wal))) && p !in Unlinked(RecoveryOps(d, Groups(d.wal))[..n])
    ensures var d2 := Crashed(DoAll(d, RecoveryOps(d, Groups(d.wal))[..n]), kept);
      p in Unlinked(RecoveryOps(d2, Groups(d2.wal)))
  {
    hide RecoveryOps, Groups, Outcome, Named, PlainLogs, Resolved, Sane, DoAll, Benign;
    var ops := RecoveryOps(d, Groups(d.wal));
    var d1 := DoAll(d, ops[..n]);
    var d2 := Crashed(d1, kept);
    SaneGroups(d);
    RecoveryUnlinks(d, Groups(d.wal), p);
    var g: seq<Intent> :| g in Groups(d.wal) && DeadPath(d.logs, g, p);
    DeadIsNonEmpty(d.logs, g, p);
    var i: Intent := g[0];
    assert i in g && g == Pending(d.wal, i.txn) && |Pending(d.wal, i.txn)| <= 1;
    assert g == [i] && p in PathSet(i);
    BenignKeepsLogs(d, ops[..n]);
    BenignRunIsSane(d, ops[..n]);
    CrashedIsSane(d1, kept);
    SaneGroups(d2);
    RecoveryUnlinks(d2, Groups(d2.wal), p);
    assert !IsCommitted(d.logs, g[0]);
    RecoveryCleans(d, Groups(d.wal), i, p);
    NotYetResolved(ops, n, i.txn, p);
    BenignTail(d, ops[..n], kept);
    BenignWal(d, ops[..n]);
    assert Pending(d2.wal, i.txn) == [i];
    assert Pending(d2.wal, i.txn) in Groups(d2.wal);
    assert [i] == g && DeadPath(d2.logs, [i], p);
  }

  lemma NotYetResolved(ops: seq<Op>, n: nat, id: nat, p: string)
    requires n <= |ops| && Cleans(ops, id, p) && p !in Unlinked(ops[..n])
    ensures !WillCommit(ops[..n], id)
  {
    var m :| 0 <= m < |ops| && ops[m] == Unlink(p) && !WillCommit(ops[..m], id);
    forall k | 0 <= k < n ensures ops[k] != Unlink(p) { assert ops[..n][k] == ops[k]; }
    forall k | 0 <= k < n ensures ops[..n][k] != LogLazy(Committed(id)) { assert ops[..n][k] == ops[..m][k]; }
  }

  // Recovery is idempotent: interrupted after any of its steps by a crash that
  // loses any of its unsynced records, and run again from the start, it leaves
  // the manifests and the files an uninterrupted recovery leaves.
  lemma RecoveryIsIdempotent(d: Disk, n: nat, kept: nat)
    requires Sane(d) && d.tail == [] && Lone(d.wal) && n <= |RecoveryOps(d, Groups(d.wal))|
    requires kept <= |DoAll(d, RecoveryOps(d, Groups(d.wal))[..n]).tail|
    ensures var d2 := Crashed(DoAll(d, RecoveryOps(d, Groups(d.wal))[..n]), kept);
      RecoverAll(d2).logs == RecoverAll(d).logs && RecoverAll(d2).files == RecoverAll(d).files
  {
    hide RecoveryOps, Groups, Named, PlainLogs, Resolved, Unlinked, Outcome, Sane;
    var ops := RecoveryOps(d, Groups(d.wal));
    var d1 := DoAll(d, ops[..n]);
    var d2 := Crashed(d1, kept);
    SaneGroups(d);
    RecoveryIsBenign(d, Groups(d.wal));
    assert Benign(d.logs, ops[..n]);
    BenignKeepsLogs(d, ops);
    BenignKeepsLogs(d, ops[..n]);
    BenignFiles(d, ops);
    BenignFiles(d, ops[..n]);
    BenignRunIsSane(d, ops[..n]);
    CrashedIsSane(d1, kept);
    SaneGroups(d2);
    RecoveryIsBenign(d2, Groups(d2.wal));
    var ops2 := RecoveryOps(d2, Groups(d2.wal));
    BenignKeepsLogs(d2, ops2);
    BenignFiles(d2, ops2);
    assert ops == ops[..n] + ops[n..];
    UnlinkedConcat(ops[..n], ops[n..]);
    forall p ensures p in Unlinked(ops[..n]) + Unlinked(ops2) <==> p in Unlinked(ops) {
      SecondRecoveryRemovesNoMore(d, ops[..n], kept, p);
      if p in Unlinked(ops) && p !in Unlinked(ops[..n]) { SecondRecoveryFinishes(d, n, kept, p); }
    }
    assert d.files - Unlinked(ops[..n]) - Unlinked(ops2) == d.files - Unlinked(ops);
  }

  // ----- what the protocol needs of a transaction -----

  lemma {:induction false} LoneGroupOf(es: seq<Entry>, i: Intent, ids: seq<nat>)
    requires OnlyPending(es, i) && forall a, b :: 0 <= a < b < |ids| ==> ids[a] != ids[b]
    ensures GroupsOf(es, ids) == if i.txn in ids then [[i]] else []
  {
    if ids != [] {
      var n := |ids| - 1;
      LoneGroupOf(es, i, ids[..n]);
      assert ids == ids[..n] + [ids[n]];
      assert forall a :: 0 <= a < n ==> ids[..n][a] != ids[n];
    }
  }

  lemma LoneGroup(es: seq<Entry>, i: Intent)
    requires OnlyPending(es, i)
    ensures Groups(es) == [[i]]
  {
    FirstSeenIsDistinct(es);
    assert Pending(es, i.txn) == [i];
    PendingIsSeen(es, i.txn);
    LoneGroupOf(es, i, FirstSeen(es));
  }

  // The disk right after the manifest record became durable.
  function JustPublished(d: Disk, i: Intent): Disk {
    DoAll(d, Stages(Paths(i)) + [LogSync(Intend(i)), PublishOf(i)])
  }

  lemma JustPublishedIs(d: Disk, i: Intent)
    ensures JustPublished(d, i)
      == Disk(Content(d) + [Intend(i)], [], Published(d.logs, i.table, i.commitTs, i.adds, i.dvUpdates), d.files + PathSet(i))
  {
    hide Published, Outcome, DoAll, Paths, Stages;
    StagesDo(d, Paths(i));
    var a, b := LogSync(Intend(i)), PublishOf(i);
    DoAllSplit(d, Stages(Paths(i)), [a, b]);
    var staged := DoAll(d, Stages(Paths(i)));
    assert [a, b] == [a] + [b];
    DoOne(staged, a);
    DoStep(staged, [a], b);
  }

  lemma UndoOne(i: Intent)
    ensures UndoOps([i]) == Unlinks(Paths(i)) + [LogLazy(Committed(i.txn))]
  {
    var none: seq<Intent>, u := [], Unlinks(Paths(i));
    assert [i][..0] == none && UndoOps(none) + u == u;
  }

  lemma ForwardOne(logs: map<string, seq<Record>>, i: Intent)
    requires IsCommitted(logs, i)
    ensures ForwardOps(logs, [i]) == [LogLazy(Committed(i.txn))]
  {
    hide IsCommitted;
    var none: seq<Intent>, last := [], [LogLazy(Committed(i.txn))];
    assert [i][..0] == none && ForwardOps(logs, none) + last == last;
  }

  lemma LoneOps(logs: map<string, seq<Record>>, i: Intent)
    ensures GroupOps(logs, [i]) == (if IsCommitted(logs, i) then [] else Unlinks(Paths(i))) + [LogLazy(Committed(i.txn))]
  {
    hide IsCommitted, ForwardOps, UndoOps, Unlinks;
    var g: seq<Intent> := [i];
    assert AnyCommitted(logs, g) <==> IsCommitted(logs, g[0]);
    if IsCommitted(logs, i) {
      ForwardOne(logs, i);
      assert [] + [LogLazy(Committed(i.txn))] == [LogLazy(Committed(i.txn))];
    } else {
      UndoOne(i);
    }
  }

  lemma OneGroup(d: Disk, g: seq<Intent>)
    ensures RecoveryOps(d, [g]) == GroupOps(d.logs, g)
  {
    hide GroupOps, DoAll;
    var none: seq<seq<Intent>> := [];
    assert [g][1..] == none;
  }

  lemma RecoverAllIs(d: Disk)
    ensures RecoverAll(d) == DoAll(d, RecoveryOps(d, Groups(d.wal)))
  {
  }

  lemma LoneRecovery(d: Disk, i: Intent)
    requires OnlyPending(d.wal, i)
    ensures RecoverAll(d) == DoAll(d, (if IsCommitted(d.logs, i) then [] else Unlinks(Paths(i))) + [LogLazy(Committed(i.txn))])
  {
    hide *;
    LoneGroup(d.wal, i);
    assert Groups(d.wal) == [[i]];
    OneGroup(d, [i]);
    assert RecoveryOps(d, Groups(d.wal)) == GroupOps(d.logs, [i]);
    RecoverAllIs(d);
    LoneOps(d.logs, i);
  }

  lemma KeptNothing(d: Disk)
    requires d.tail == []
    ensures Crashed(d, 0) == d
  {
    assert d.tail[..0] == [];
  }

  lemma CommittedRecovery(d: Disk, i: Intent)
    ensures var r := DoAll(d, [] + [LogLazy(Committed(i.txn))]); r.logs == d.logs && r.files == d.files
  {
    hide DoAll;
    assert [] + [LogLazy(Committed(i.txn))] == [LogLazy(Committed(i.txn))];
    DoOne(d, LogLazy(Committed(i.txn)));
  }

  lemma UndoneRecovery(d: Disk, i: Intent)
    ensures var r := DoAll(d, Unlinks(Paths(i)) + [LogLazy(Committed(i.txn))]); r.logs == d.logs && r.files == d.files - PathSet(i)
  {
    UnlinksDo(d, Paths(i));
    DoStep(d, Unlinks(Paths(i)), LogLazy(Committed(i.txn)));
  }

  lemma NoAddsUncommitted(logs: map<string, seq<Record>>, i: Intent)
    requires i.adds == []
    ensures !IsCommitted(logs, i)
  {
  }

  lemma NoAddsPaths(i: Intent)
    requires i.adds == []
    ensures PathSet(i) == {} <==> i.dvUpdates == []
  {
    if i.dvUpdates != [] { assert Paths(i)[0] in PathSet(i); }
  }

  lemma CrashedIntent(d: Disk, i: Intent)
    requires NoPending(Content(d))
    ensures OnlyPending(Content(d) + [Intend(i)], i)
  {
    forall id { PendingAppend(Content(d), Intend(i), id); }
  }

  lemma {:induction false} NoGroupsOf(es: seq<Entry>, ids: seq<nat>)
    requires NoPending(es)
    ensures GroupsOf(es, ids) == []
  {
    if ids != [] {
      NoGroupsOf(es, ids[..|ids| - 1]);
      assert Pending(es, ids[|ids| - 1]) == [];
    }
  }

  lemma NothingToRecover(d: Disk)
    requires NoPending(d.wal)
    ensures RecoverAll(d) == d
  {
    NoGroupsOf(d.wal, FirstSeen(d.wal));
  }

  // A crash right after publication is recovered without losing a named file
  // exactly when the transaction adds a segment or has nothing to publish.
  // Recovery recognises a commit by its added segments alone, so a transaction
  // made of deletion vectors only (a DELETE) has its published files removed.
  lemma RecoverySafeIff(d: Disk, i: Intent)
    requires PlainLogs(d.logs) && Named(d.logs) <= d.files && NoPending(Content(d))
    requires i.table != "" && i.commitTs <= MAX_TS && PathSet(i) !! d.files && "" !in PathSet(i)
    ensures var r := RecoverAll(Crashed(JustPublished(d, i), 0));
      Named(r.logs) <= r.files <==> i.adds != [] || i.dvUpdates == []
  {
    hide *;
    JustPublishedIs(d, i);
    var d1 := JustPublished(d, i);
    assert Crashed(d1, 0) == d1 by { KeptNothing(d1); }
    CrashedIntent(d, i);
    LoneRecovery(d1, i);
    PublishNames(d.logs, i);
    if i.adds != [] {
      PublishCommits(d.logs, i);
      CommittedRecovery(d1, i);
    } else {
      NoAddsUncommitted(d1.logs, i);
      UndoneRecovery(d1, i);
      NoAddsPaths(i);
    }
  }

  lemma {:induction false} UnlinksDo(d: Disk, ps: seq<string>)
    ensures DoAll(d, Unlinks(ps)) == d.(files := d.files - set p | p in ps)
  {
    hide Published, Outcome, DoAll;
    if ps == [] {
      NothingUnlinked(d);
    } else {
      var n := |ps| - 1;
      UnlinksDo(d, ps[..n]);
      assert Unlinks(ps) == Unlinks(ps[..n]) + [Unlink(ps[n])];
      DoStep(d, Unlinks(ps[..n]), Unlink(ps[n]));
      assert ps == ps[..n] + [ps[n]];
      LastMember(ps, ps[..n], ps[n]);
    }
  }

  lemma NothingUnlinked(d: Disk)
    ensures DoAll(d, Unlinks([])) == d
  {
  }

  lemma LastMember(ps: seq<string>, front: seq<string>, last: string)
    requires ps == front + [last]
    ensures (set p | p in ps) == (set p | p in front) + {last}
  {
  }

  // A DELETE of one segment's rows loses its deletion vector this way.
  lemma DeleteLosesItsVector()
    ensures var i := Intent(1, 2, "t", [], [DVUpdate("seg", "seg.dv")]);
      var d := Disk([], [], map["t" := [Record(1, 1, "", 0, "", [SegmentAdd("seg", 10)], [], [])]], {"seg"});
      var r := RecoverAll(Crashed(JustPublished(d, i), 0));
      Named(d.logs) <= d.files && !(Named(r.logs) <= r.files)
  {
    var i := Intent(1, 2, "t", [], [DVUpdate("seg", "seg.dv")]);
    var rec := Record(1, 1, "", 0, "", [SegmentAdd("seg", 10)], [], []);
    var d := Disk([], [], map["t" := [rec]], {"seg"});
    assert d.logs["t"][..0] == [];
    assert NamedBy(d.logs["t"]) <= {"seg"} by {
      forall p | p in NamedBy(d.logs["t"]) ensures p == "seg" {
        var k :| 0 <= k < |rec.adds| && rec.adds[k].path == p;
        assert k == 0;
      }
    }
    assert PathSet(i) !! d.files by {
      assert Paths(i) == ["seg.dv"];
      assert |"seg"| != |"seg.dv"|;
    }
    assert "" !in PathSet(i) by { assert Paths(i) == ["seg.dv"]; }
    RecoverySafeIff(d, i);
  }
}
