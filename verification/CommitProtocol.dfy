// Committing a transaction through the write-ahead log, and recovering a group
// of intents after a crash. The disk separates what is durable from the log
// operations that have not been synced yet.
module CommitProtocol {
  import opened Options
  import opened Manifest
  import opened TxnGroups
  import TimeTravel

  // ----- the disk -----

  datatype LazyOp = Append(e: Entry) | Truncate

  // wal is durable; tail holds log writes since the last sync, oldest first.
  datatype Disk = Disk(wal: seq<Entry>, tail: seq<LazyOp>, logs: map<string, seq<Record>>, files: set<string>)

  datatype Op =
    | Stage(path: string)
    | Unlink(path: string)
    | LogSync(e: Entry)
    | LogLazy(e: Entry)
    | LogTruncate
    | Publish(table: string, commitTs: nat, adds: seq<SegmentAdd>, dvUpdates: seq<DVUpdate>)

  function Outcome(wal: seq<Entry>, ops: seq<LazyOp>): (es: seq<Entry>) {
    if ops == [] then wal
    else
      match ops[|ops| - 1]
      case Append(e) => Outcome(wal, ops[..|ops| - 1]) + [e]
      case Truncate => []
  }

  // What the running process reads back from its log.
  function Content(d: Disk): seq<Entry> {
    Outcome(d.wal, d.tail)
  }

  // A manifest that does not exist yet is opened empty.
  function LogOf(logs: map<string, seq<Record>>, table: string): seq<Record> {
    if table in logs then logs[table] else []
  }

  function Published(logs: map<string, seq<Record>>, table: string, commitTs: nat, adds: seq<SegmentAdd>, dvUpdates: seq<DVUpdate>)
    : map<string, seq<Record>>
  {
    if adds == [] && dvUpdates == [] then logs
    else logs[table := TimeTravel.Appended(LogOf(logs, table), TimeTravel.Committed(commitTs, adds, dvUpdates))]
  }

  function Do(d: Disk, op: Op): Disk {
    match op
    case Stage(p) => d.(files := d.files + {p})
    case Unlink(p) => d.(files := d.files - {p})
    case LogSync(e) => d.(wal := Content(d) + [e], tail := [])
    case LogLazy(e) => d.(tail := d.tail + [Append(e)])
    case LogTruncate => if Content(d) == [] then d else d.(tail := d.tail + [Truncate])
    case Publish(t, ts, adds, dvs) => d.(logs := Published(d.logs, t, ts, adds, dvs))
  }

  function DoAll(d: Disk, ops: seq<Op>): Disk {
    if ops == [] then d else Do(DoAll(d, ops[..|ops| - 1]), ops[|ops| - 1])
  }

  // A crash keeps the durable log and some prefix of the unsynced writes.
  function Crashed(d: Disk, kept: nat): Disk
    requires kept <= |d.tail|
  {
    d.(wal := Outcome(d.wal, d.tail[..kept]), tail := [])
  }

  lemma DoStep(d: Disk, ops: seq<Op>, op: Op)
    ensures DoAll(d, ops + [op]) == Do(DoAll(d, ops), op)
  {
    assert (ops + [op])[..|ops|] == ops;
  }

  lemma DoOne(d: Disk, op: Op)
    ensures DoAll(d, [op]) == Do(d, op)
  {
    DoStep(d, [], op);
    assert [] + [op] == [op];
  }

  lemma {:induction false} DoAllSplit(d: Disk, a: seq<Op>, b: seq<Op>)
    ensures DoAll(d, a + b) == DoAll(DoAll(d, a), b)
  {
    if b == [] {
      assert a + b == a;
    } else {
      var n := |b| - 1;
      DoAllSplit(d, a, b[..n]);
      assert a + b == a + b[..n] + [b[n]];
      DoStep(d, a + b[..n], b[n]);
    }
  }

  // ----- what each procedure does to the disk, step by step -----

  function Paths(i: Intent): (ps: seq<string>)
    ensures |ps| == |i.adds| + |i.dvUpdates|
  {
    seq(|i.adds|, k requires 0 <= k < |i.adds| => i.adds[k].path)
      + seq(|i.dvUpdates|, k requires 0 <= k < |i.dvUpdates| => i.dvUpdates[k].dv)
  }

  function PublishOf(i: Intent): Op {
    Publish(i.table, i.commitTs, i.adds, i.dvUpdates)
  }

  function CommitOps(i: Intent): (ops: seq<Op>) {
    [LogSync(Intend(i)), PublishOf(i), LogLazy(Committed(i.txn))]
  }

  function Unlinks(ps: seq<string>): (ops: seq<Op>)
    ensures |ops| == |ps| && forall k :: 0 <= k < |ps| ==> ops[k] == Unlink(ps[k])
  {
    seq(|ps|, k requires 0 <= k < |ps| => Unlink(ps[k]))
  }

  predicate Known(logs: map<string, seq<Record>>, table: string, path: string) {
    InView(TimeTravel.ViewAt(LogOf(logs, table), MAX_TS), path)
  }

  // Some added segment is already in the current view of its table.
  predicate IsCommitted(logs: map<string, seq<Record>>, i: Intent) {
    i.table != "" && exists k :: 0 <= k < |i.adds| && Known(logs, i.table, i.adds[k].path)
  }

  predicate AnyCommitted(logs: map<string, seq<Record>>, group: seq<Intent>) {
    exists k :: 0 <= k < |group| && IsCommitted(logs, group[k])
  }

  function ForwardOps(logs: map<string, seq<Record>>, group: seq<Intent>): (ops: seq<Op>) {
    if group == [] then []
    else
      var n := |group| - 1;
      ForwardOps(logs, group[..n])
        + if IsCommitted(logs, group[n]) then [LogLazy(Committed(group[n].txn))] else CommitOps(group[n])
  }

  function UndoOps(group: seq<Intent>): (ops: seq<Op>) {
    if group == [] then []
    else
      var n := |group| - 1;
      UndoOps(group[..n]) + Unlinks(Paths(group[n])) + [LogLazy(Committed(group[n].txn))]
  }

  function GroupOps(logs: map<string, seq<Record>>, group: seq<Intent>): (ops: seq<Op>) {
    if AnyCommitted(logs, group) then ForwardOps(logs, group) else UndoOps(group)
  }

  // Each group is judged by the manifests as the groups before it left them.
  function RecoveryOps(d: Disk, groups: seq<seq<Intent>>): (ops: seq<Op>)
    decreases |groups|
  {
    if groups == [] then []
    else
      var first := GroupOps(d.logs, groups[0]);
      first + RecoveryOps(DoAll(d, first), groups[1..])
  }

  // ----- the procedures -----

  class Engine {
    var disk: Disk
    var nextTxn: nat
    var nextCommitTs: nat
    ghost var trace: seq<Op>   // every disk operation so far, in order

    // The disk has moved on from d, and the trace from t, by exactly ops.
    ghost predicate Did(d: Disk, t: seq<Op>, ops: seq<Op>)
      reads this
    {
      disk == DoAll(d, ops) && trace == t + ops
    }

    method Perform(op: Op, ghost d: Disk, ghost t: seq<Op>, ghost done: seq<Op>)
      requires Did(d, t, done)
      modifies `disk, `trace
      ensures Did(d, t, done + [op])
    {
      DoStep(d, done, op);
      disk, trace := Do(disk, op), trace + [op];
    }

    method CommitManifestTxnAs(table: string, txn: nat, commitTs: nat, adds: seq<SegmentAdd>, dvUpdates: seq<DVUpdate>,
                               ghost d: Disk, ghost t: seq<Op>, ghost done: seq<Op>)
      requires Did(d, t, done)
      modifies `disk, `trace
      ensures Did(d, t, done + CommitOps(Intent(txn, commitTs, table, adds, dvUpdates)))
    {
      hide DoAll;
      var i := Intent(txn, commitTs, table, adds, dvUpdates);
      Perform(LogSync(Intend(i)), d, t, done);
      Perform(PublishOf(i), d, t, done + [LogSync(Intend(i))]);
      Perform(LogLazy(Committed(txn)), d, t, done + [LogSync(Intend(i))] + [PublishOf(i)]);
      assert done + [LogSync(Intend(i))] + [PublishOf(i)] + [LogLazy(Committed(txn))] == done + CommitOps(i);
    }

    method CommitManifestTxn(table: string, adds: seq<SegmentAdd>, dvUpdates: seq<DVUpdate>)
      modifies this
      ensures nextTxn == old(nextTxn) + 1 && nextCommitTs == old(nextCommitTs) + 1
      ensures Did(old(disk), old(trace), CommitOps(Intent(nextTxn, nextCommitTs, table, adds, dvUpdates)) + [LogTruncate])
    {
      nextTxn := nextTxn + 1;
      nextCommitTs := nextCommitTs + 1;
      ghost var d, t, ops := disk, trace, CommitOps(Intent(nextTxn, nextCommitTs, table, adds, dvUpdates));
      assert [] + ops == ops;
      CommitManifestTxnAs(table, nextTxn, nextCommitTs, adds, dvUpdates, d, t, []);
      Perform(LogTruncate, d, t, ops);
    }

    method RemoveAll(ps: seq<string>, ghost d: Disk, ghost t: seq<Op>, ghost done: seq<Op>)
      requires Did(d, t, done)
      modifies `disk, `trace
      ensures Did(d, t, done + Unlinks(ps))
    {
      hide DoAll;
      assert done + Unlinks(ps[..0]) == done;
      for k := 0 to |ps|
        invariant Did(d, t, done + Unlinks(ps[..k]))
      {
        assert done + Unlinks(ps[..k + 1]) == done + Unlinks(ps[..k]) + [Unlink(ps[k])];
        Perform(Unlink(ps[k]), d, t, done + Unlinks(ps[..k]));
      }
      assert ps[..|ps|] == ps;
    }

    method RecoverTxnGroup(group: seq<Intent>, ghost d: Disk, ghost t: seq<Op>, ghost done: seq<Op>)
      requires Did(d, t, done)
      modifies `disk, `trace
      ensures Did(d, t, done + GroupOps(old(disk).logs, group))
    {
      hide DoAll, Did, IsCommitted, CommitOps, ForwardOps, UndoOps;
      ghost var logs := disk.logs;
      var states, anyCommitted := Judge(disk.logs, group);
      if anyCommitted {
        ForwardNothing(logs, done);
        for k := 0 to |group|
          invariant Did(d, t, done + ForwardOps(logs, group[..k]))
        {
          ghost var so := done + ForwardOps(logs, group[..k]);
          assert group[..k + 1] == group[..k] + [group[k]];
          ForwardStep(logs, group[..k], group[k], done);
          if states[k] {
            Perform(LogLazy(Committed(group[k].txn)), d, t, so);
          } else {
            CommitManifestTxnAs(group[k].table, group[k].txn, group[k].commitTs, group[k].adds, group[k].dvUpdates, d, t, so);
          }
        }
        assert group[..|group|] == group;
        return;
      }
      UndoNothing(done);
      for k := 0 to |group|
        invariant Did(d, t, done + UndoOps(group[..k]))
      {
        ghost var so := done + UndoOps(group[..k]);
        assert group[..k + 1] == group[..k] + [group[k]];
        UndoStep(group[..k], group[k], done);
        RemoveAll(Paths(group[k]), d, t, so);
        Perform(LogLazy(Committed(group[k].txn)), d, t, so + Unlinks(Paths(group[k])));
      }
      assert group[..|group|] == group;
    }

    // Opening the log: every pending group is recovered in turn. Unreadable records stop it.
    method OpenWAL(records: seq<Entry>) returns (ok: bool)
      modifies `disk, `trace
      ensures ok <==> Readable(records)
      ensures Did(old(disk), old(trace), if ok then RecoveryOps(old(disk), Groups(records)) else [])
    {
      hide GroupOps, Groups, Readable;
      var pending := PendingTxnGroups(records);
      if pending.None? {
        return false;
      }
      var groups := pending.value;
      ghost var d, t, done := disk, trace, [];
      for k := 0 to |groups|
        invariant Did(d, t, done)
        invariant RecoveryOps(d, groups) == done + RecoveryOps(disk, groups[k..])
      {
        ghost var here := disk;
        ghost var ops := GroupOps(here.logs, groups[k]);
        RecoverTxnGroup(groups[k], d, t, done);
        DoAllSplit(d, done, ops);
        RecoveryStep(here, groups, k, done);
        done := done + ops;
      }
      RecoveryNothing(disk, groups, done);
      ok := true;
    }
  }

  lemma ForwardNothing(logs: map<string, seq<Record>>, done: seq<Op>)
    ensures done + ForwardOps(logs, []) == done
  {
  }

  lemma ForwardStep(logs: map<string, seq<Record>>, group: seq<Intent>, i: Intent, done: seq<Op>)
    ensures done + ForwardOps(logs, group + [i]) == done + ForwardOps(logs, group)
      + if IsCommitted(logs, i) then [LogLazy(Committed(i.txn))] else CommitOps(i)
  {
    assert (group + [i])[..|group|] == group;
  }

  lemma UndoNothing(done: seq<Op>)
    ensures done + UndoOps([]) == done
  {
  }

  lemma UndoStep(group: seq<Intent>, i: Intent, done: seq<Op>)
    ensures done + UndoOps(group + [i]) == done + UndoOps(group) + Unlinks(Paths(i)) + [LogLazy(Committed(i.txn))]
  {
    assert (group + [i])[..|group|] == group;
  }

  lemma RecoveryNothing(d: Disk, groups: seq<seq<Intent>>, done: seq<Op>)
    ensures done + RecoveryOps(d, groups[|groups|..]) == done
  {
  }

  lemma RecoveryStep(d: Disk, groups: seq<seq<Intent>>, k: nat, done: seq<Op>)
    requires k < |groups|
    ensures done + RecoveryOps(d, groups[k..])
      == done + GroupOps(d.logs, groups[k]) + RecoveryOps(DoAll(d, GroupOps(d.logs, groups[k])), groups[k + 1..])
  {
    hide DoAll, GroupOps;
    assert groups[k..][1..] == groups[k + 1..];
  }

  // Whether the current view of the table holds some segment the intent adds.
  method FindAdd(logs: map<string, seq<Record>>, i: Intent) returns (found: bool)
    requires i.table != ""
    ensures found == IsCommitted(logs, i)
  {
    hide LogOf, Fold, Visible;
    var log := LogOf(logs, i.table);
    var view := Resolve(log, Top(log), MAX_TS);
    var known: set<string> := {};
    for m := 0 to |view|
      invariant forall p :: p in known <==> exists j :: 0 <= j < m && view[j].path == p
    {
      known := known + {view[m].path};
    }
    assert forall p :: p in known <==> Known(logs, i.table, p);
    hide Known, InView;
    found := false;
    var a := 0;
    while a < |i.adds| && !found
      invariant a <= |i.adds|
      invariant found <==> exists j :: 0 <= j < a && Known(logs, i.table, i.adds[j].path)
    {
      found := i.adds[a].path in known;
      a := a + 1;
    }
  }

  // Which intents of the group reached their manifest.
  method Judge(logs: map<string, seq<Record>>, group: seq<Intent>) returns (states: seq<bool>, anyCommitted: bool)
    ensures |states| == |group| && forall k :: 0 <= k < |group| ==> states[k] == IsCommitted(logs, group[k])
    ensures anyCommitted == AnyCommitted(logs, group)
  {
    hide Known;
    states, anyCommitted := [], false;
    for n := 0 to |group|
      invariant |states| == n && forall k :: 0 <= k < n ==> states[k] == IsCommitted(logs, group[k])
      invariant anyCommitted == exists k :: 0 <= k < n && IsCommitted(logs, group[k])
    {
      var i := group[n];
      if i.table == "" || |i.adds| == 0 {
        states := states + [false];
        continue;
      }
      var committed := FindAdd(logs, i);
      states := states + [committed];
      anyCommitted := anyCommitted || committed;
    }
  }
}
