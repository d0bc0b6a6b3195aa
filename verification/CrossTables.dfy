// A transaction over several tables: what a crash in the middle of its commit
// leaves behind after recovery.
module CrossTables {
  import opened Manifest
  import opened TxnGroups
  import opened CommitProtocol
  import opened CrashSafety
  import TimeTravel

  // The commit handles one table after the other, under one transaction number.
  function CommitAll(parts: seq<Intent>): (ops: seq<Op>)
    ensures |ops| == 3 * |parts|
  {
    if parts == [] then [] else CommitAll(parts[..|parts| - 1]) + CommitOps(parts[|parts| - 1])
  }

  function PublishAll(logs: map<string, seq<Record>>, parts: seq<Intent>): (after: map<string, seq<Record>>) {
    if parts == [] then logs
    else
      var i := parts[|parts| - 1];
      Published(PublishAll(logs, parts[..|parts| - 1]), i.table, i.commitTs, i.adds, i.dvUpdates)
  }

  // One transaction number, a table each, something to publish there, and fresh paths.
  ghost predicate IsTxn(logs: map<string, seq<Record>>, parts: seq<Intent>) {
    && (forall k :: 0 <= k < |parts| ==> Part(logs, parts[k], parts[0].txn))
    && (forall j, k :: 0 <= j < k < |parts| ==> parts[j].table != parts[k].table && PathSet(parts[j]) !! PathSet(parts[k]))
  }

  ghost predicate Part(logs: map<string, seq<Record>>, i: Intent, txn: nat) {
    && i.txn == txn && i.table != "" && i.commitTs <= MAX_TS && (i.adds != [] || i.dvUpdates != [])
    && "" !in PathSet(i) && PathSet(i) !! Named(logs)
  }

  lemma FewerParts(logs: map<string, seq<Record>>, parts: seq<Intent>, m: nat)
    requires IsTxn(logs, parts) && m <= |parts|
    ensures IsTxn(logs, parts[..m])
  {
  }

  // How many manifest records are among the first c steps.
  function PublishedBy(c: nat): (m: nat) {
    (c + 1) / 3
  }

  lemma PartOf(logs: map<string, seq<Record>>, parts: seq<Intent>, k: nat)
    requires IsTxn(logs, parts) && k < |parts|
    ensures Part(logs, parts[k], parts[0].txn)
  {
  }

  lemma LastPart(logs: map<string, seq<Record>>, parts: seq<Intent>)
    requires IsTxn(logs, parts) && parts != []
    ensures parts[|parts| - 1].commitTs <= MAX_TS
  {
  }

  lemma {:induction false} PublishAllNames(logs: map<string, seq<Record>>, parts: seq<Intent>)
    requires PlainLogs(logs) && IsTxn(logs, parts)
    ensures PlainLogs(PublishAll(logs, parts))
    ensures forall p :: p in Named(PublishAll(logs, parts)) <==> p in Named(logs) || exists k :: 0 <= k < |parts| && p in PathSet(parts[k])
  {
    if parts != [] {
      hide PlainLogs, Named, PathSet, Published, IsTxn, Part;
      var n := |parts| - 1;
      LastPart(logs, parts);
      FewerParts(logs, parts, n);
      PublishAllNames(logs, parts[..n]);
      PublishNames(PublishAll(logs, parts[..n]), parts[n]);
      assert forall k :: 0 <= k < n ==> parts[..n][k] == parts[k];
    }
  }

  // The paths of the next part are fresh for the manifests written so far.
  lemma NextPartIsNew(logs: map<string, seq<Record>>, parts: seq<Intent>, m: nat)
    requires PlainLogs(logs) && IsTxn(logs, parts) && m < |parts|
    ensures PlainLogs(PublishAll(logs, parts[..m])) && PathSet(parts[m]) !! Named(PublishAll(logs, parts[..m]))
    ensures PublishAll(logs, parts[..m + 1])
      == Published(PublishAll(logs, parts[..m]), parts[m].table, parts[m].commitTs, parts[m].adds, parts[m].dvUpdates)
  {
    hide PlainLogs, Named, PathSet, Published;
    FewerParts(logs, parts, m);
    PublishAllNames(logs, parts[..m]);
    assert parts[..m + 1][..m] == parts[..m];
    forall p | p in PathSet(parts[m]) ensures p !in Named(PublishAll(logs, parts[..m])) {
      forall k | 0 <= k < m ensures p !in PathSet(parts[..m][k]) {
        assert PathSet(parts[k]) !! PathSet(parts[m]);
      }
      assert PathSet(parts[m]) !! Named(logs);
    }
  }

  // What a crash finds of part i: its intent is durable, and after it at most the commit record is on its way.
  ghost predicate Underway(d: Disk, i: Intent) {
    && PlainLogs(d.logs) && OnlyPending(d.wal, i)
    && (d.tail == [] || d.tail == [Append(Committed(i.txn))])
  }

  lemma ResolvedIsNotPending(es: seq<Entry>, i: Intent)
    requires OnlyPending(es, i)
    ensures NoPending(es + [Committed(i.txn)])
  {
    forall id ensures Pending(es + [Committed(i.txn)], id) == [] { PendingAppend(es, Committed(i.txn), id); }
  }

  lemma OneWrite(wal: seq<Entry>, e: Entry)
    ensures Outcome(wal, [Append(e)]) == wal + [e]
  {
    var none: seq<LazyOp> := [];
    assert [Append(e)][..0] == none && Outcome(wal, none) == wal;
  }

  // Recovery does not change the manifests then. It takes away files they name
  // when it does not recognise the part as committed although it is published.
  lemma UnderwayRecovers(d: Disk, i: Intent, kept: nat)
    requires Underway(d, i) && kept <= |d.tail|
    ensures var e := Crashed(d, kept);
      && (forall id :: |Pending(e.wal, id)| <= 1)
      && RecoverAll(e).logs == d.logs
      && RecoverAll(e).files == if kept > 0 || IsCommitted(d.logs, i) then d.files else d.files - PathSet(i)
  {
    hide RecoverAll, IsCommitted, Named, PlainLogs, PathSet, Groups;
    var e := Crashed(d, kept);
    if kept == 0 {
      assert d.tail[..0] == [];
      LoneRecovery(e, i);
      CommittedRecovery(e, i);
      UndoneRecovery(e, i);
    } else {
      OneWrite(d.wal, Committed(i.txn));
      assert d.tail[..1] == d.tail;
      assert e.wal == d.wal + [Committed(i.txn)];
      ResolvedIsNotPending(d.wal, i);
      NothingToRecover(e);
    }
  }

  lemma CommitStep(d: Disk, ops: seq<Op>, i: Intent)
    ensures var a := DoAll(d, ops);
      && DoAll(d, ops + CommitOps(i)[..1]) == a.(wal := Content(a) + [Intend(i)], tail := [])
      && DoAll(d, ops + CommitOps(i)[..2]).logs == Published(a.logs, i.table, i.commitTs, i.adds, i.dvUpdates)
      && DoAll(d, ops + CommitOps(i)[..2]) == DoAll(d, ops + CommitOps(i)[..1]).(logs := Published(a.logs, i.table, i.commitTs, i.adds, i.dvUpdates))
      && DoAll(d, ops + CommitOps(i)) == DoAll(d, ops + CommitOps(i)[..2]).(tail := [Append(Committed(i.txn))])
  {
    hide Published, Outcome, DoAll;
    var c := CommitOps(i);
    assert ops + c[..1] == ops + [c[0]] && ops + c[..2] == ops + c[..1] + [c[1]] && ops + c == ops + c[..2] + [c[2]];
    DoStep(d, ops, c[0]);
    DoStep(d, ops + c[..1], c[1]);
    DoStep(d, ops + c[..2], c[2]);
  }

  // The disk a transaction finds: its files are staged, and the log owes nothing.
  ghost predicate Staged(d: Disk, parts: seq<Intent>) {
    && PlainLogs(d.logs) && Named(d.logs) <= d.files && NoPending(Content(d))
    && IsTxn(d.logs, parts) && forall k :: 0 <= k < |parts| ==> PathSet(parts[k]) <= d.files
  }

  // The disk after the first m parts have been committed.
  lemma {:induction false} AfterParts(d: Disk, parts: seq<Intent>, m: nat)
    requires Staged(d, parts) && m <= |parts|
    ensures var e := DoAll(d, CommitAll(parts[..m]));
      && e.logs == PublishAll(d.logs, parts[..m]) && e.files == d.files && NoPending(Content(e))
      && (m > 0 ==> Underway(e, parts[m - 1]))
  {
    hide PlainLogs, Named, PathSet, Published, NoPending, IsCommitted, OnlyPending, Content, IsTxn, DoAll;
    if m == 0 {
      NothingDone(d);
    } else {
      AfterParts(d, parts, m - 1);
      var i := parts[m - 1];
      var a := DoAll(d, CommitAll(parts[..m - 1]));
      assert parts[..m][..m - 1] == parts[..m - 1];
      CommitStep(d, CommitAll(parts[..m - 1]), i);
      NextPartIsNew(d.logs, parts, m - 1);
      PartOf(d.logs, parts, m - 1);
      CrashedIntent(a, i);
      PublishNames(a.logs, i);
      ResolvedIsNotPending(Content(a) + [Intend(i)], i);
      ContentAfter(DoAll(d, CommitAll(parts[..m])), i);
    }
  }

  lemma NothingDone(d: Disk)
    ensures DoAll(d, []) == d
  {
  }

  lemma ContentAfter(d: Disk, i: Intent)
    requires d.tail == [Append(Committed(i.txn))]
    ensures Content(d) == d.wal + [Committed(i.txn)]
  {
    OneWrite(d.wal, Committed(i.txn));
  }

  lemma {:induction false} CommitAllPrefix(parts: seq<Intent>, c: nat)
    requires c <= 3 * |parts|
    ensures CommitAll(parts)[..c] == CommitAll(parts[..c / 3]) + (if c % 3 == 0 then [] else CommitOps(parts[c / 3])[..c % 3])
  {
    var n := |parts| - 1;
    if c == 3 * |parts| {
      assert parts[..c / 3] == parts;
    } else if c >= 3 * n {
      assert c / 3 == n;
    } else {
      CommitAllPrefix(parts[..n], c);
      assert parts[..n][..c / 3] == parts[..c / 3];
    }
  }

  // The part a crash after c steps finds under way.
  function Current(parts: seq<Intent>, c: nat): Intent
    requires 1 <= c <= 3 * |parts|
  {
    parts[(c - 1) / 3]
  }

  lemma Crashable(d: Disk, parts: seq<Intent>, c: nat)
    requires Staged(d, parts) && 1 <= c <= 3 * |parts|
    ensures var e, i := DoAll(d, CommitAll(parts)[..c]), Current(parts, c);
      && Underway(e, i) && e.logs == PublishAll(d.logs, parts[..PublishedBy(c)]) && e.files == d.files
      && (if c % 3 == 1 then PathSet(i) !! Named(e.logs) else PathSet(i) <= Named(e.logs) && (IsCommitted(e.logs, i) <==> i.adds != []))
  {
    hide PlainLogs, Named, PathSet, Published, NoPending, IsCommitted, OnlyPending, Content, IsTxn, DoAll, PublishAll, CommitAll, CommitOps;
    var m, i := c / 3, Current(parts, c);
    CommitAllPrefix(parts, c);
    AfterParts(d, parts, m);
    var k := (c - 1) / 3;
    NextPartIsNew(d.logs, parts, k);
    PartOf(d.logs, parts, k);
    PublishedPart(PublishAll(d.logs, parts[..k]), i);
    if c % 3 == 0 {
      assert k == m - 1;
      assert CommitAll(parts[..m]) + [] == CommitAll(parts[..m]);
    } else {
      assert k == m;
      var a := DoAll(d, CommitAll(parts[..m]));
      CommitStep(d, CommitAll(parts[..m]), i);
      CrashedIntent(a, i);
    }
  }

  // Recovery recognises a published part by its added segments alone.
  lemma PublishedPart(logs: map<string, seq<Record>>, i: Intent)
    requires PlainLogs(logs) && i.table != "" && i.commitTs <= MAX_TS && "" !in PathSet(i)
    ensures var after := Published(logs, i.table, i.commitTs, i.adds, i.dvUpdates);
      PlainLogs(after) && PathSet(i) <= Named(after) && (IsCommitted(after, i) <==> i.adds != [])
  {
    hide PlainLogs, Named, PathSet, Published, IsCommitted;
    PublishNames(logs, i);
    if i.adds != [] {
      PublishCommits(logs, i);
    } else {
      NoAddsUncommitted(Published(logs, i.table, i.commitTs, i.adds, i.dvUpdates), i);
    }
  }

  // Wherever the commit is cut, recovery leaves exactly the parts whose
  // manifest records were written. It never finds more than one intent pending:
  // the commit record of a part clears the transaction, and it becomes durable
  // before the intent of the next part. And every file the manifests name is
  // still there, unless the part under way had published deletion vectors
  // alone and its commit record was lost.
  lemma CrossTableOutcome(d: Disk, parts: seq<Intent>, c: nat, kept: nat)
    requires Staged(d, parts) && 1 <= c <= 3 * |parts| && kept <= |DoAll(d, CommitAll(parts)[..c]).tail|
    ensures var e := Crashed(DoAll(d, CommitAll(parts)[..c]), kept);
      && (forall id :: |Pending(e.wal, id)| <= 1)
      && RecoverAll(e).logs == PublishAll(d.logs, parts[..PublishedBy(c)])
      && (Named(RecoverAll(e).logs) <= RecoverAll(e).files <==> c % 3 == 1 || Current(parts, c).adds != [] || kept > 0)
  {
    hide PlainLogs, Named, PathSet, Underway, PublishAll, DoAll, RecoverAll, CommitAll, Crashed, IsTxn, IsCommitted;
    var i := Current(parts, c);
    Crashable(d, parts, c);
    UnderwayRecovers(DoAll(d, CommitAll(parts)[..c]), i, kept);
    PartsHaveFiles(d, parts, PublishedBy(c));
    PartOf(d.logs, parts, (c - 1) / 3);
    SomePath(i);
  }

  lemma SomePath(i: Intent)
    requires i.adds != [] || i.dvUpdates != []
    ensures PathSet(i) != {}
  {
    assert Paths(i)[0] in PathSet(i);
  }

  lemma PartsHaveFiles(d: Disk, parts: seq<Intent>, m: nat)
    requires Staged(d, parts) && m <= |parts|
    ensures Named(PublishAll(d.logs, parts[..m])) <= d.files
  {
    hide PlainLogs, Named, PathSet, PublishAll, NoPending;
    FewerParts(d.logs, parts, m);
    PublishAllNames(d.logs, parts[..m]);
  }

  lemma {:induction false} RecordsOf(logs: map<string, seq<Record>>, parts: seq<Intent>, m: nat, t: string)
    requires IsTxn(logs, parts) && m <= |parts|
    ensures |LogOf(PublishAll(logs, parts[..m]), t)|
      == |LogOf(logs, t)| + (if exists k :: 0 <= k < m && parts[k].table == t then 1 else 0)
  {
    hide Top, PathSet, Named;
    if m > 0 {
      RecordsOf(logs, parts, m - 1, t);
      assert parts[..m][..m - 1] == parts[..m - 1];
      assert Part(logs, parts[m - 1], parts[0].txn);
    }
  }

  // So a transaction over several tables is all or nothing if and only if the
  // crash does not fall between its first and its last manifest record.
  lemma CrossTableAtomicIff(d: Disk, parts: seq<Intent>, c: nat, kept: nat)
    requires Staged(d, parts) && 1 <= c <= 3 * |parts| && kept <= |DoAll(d, CommitAll(parts)[..c]).tail|
    ensures var r := RecoverAll(Crashed(DoAll(d, CommitAll(parts)[..c]), kept));
      r.logs == d.logs || r.logs == PublishAll(d.logs, parts) <==> c < 2 || c >= 3 * |parts| - 1
  {
    hide PlainLogs, Named, PathSet, DoAll, RecoverAll, CommitAll, Crashed, NoPending, Content, PublishAll, IsTxn;
    CrossTableOutcome(d, parts, c, kept);
    var m := PublishedBy(c);
    assert parts[..|parts|] == parts;
    if m > 0 { RecordsOf(d.logs, parts, m, parts[0].table); }
    RecordsOf(d.logs, parts, m, parts[|parts| - 1].table);
    RecordsOf(d.logs, parts, |parts|, parts[|parts| - 1].table);
    NothingPublished(d.logs, parts);
    LastTableIsLast(d.logs, parts);
  }

  lemma NothingPublished(logs: map<string, seq<Record>>, parts: seq<Intent>)
    ensures PublishAll(logs, parts[..0]) == logs
  {
  }

  lemma LastTableIsLast(logs: map<string, seq<Record>>, parts: seq<Intent>)
    requires IsTxn(logs, parts) && parts != []
    ensures forall k :: 0 <= k < |parts| - 1 ==> parts[k].table != parts[|parts| - 1].table
  {
  }

  // Two tables, cut after the commit record of the first: after recovery the
  // first has its part, the second has not.
  lemma HalfCommitted(p: string, q: string)
    requires p != q && p != "" && q != ""
    ensures var a, b := Intent(1, 1, "a", [SegmentAdd(p, 10)], []), Intent(1, 1, "b", [SegmentAdd(q, 10)], []);
      var d := Disk([], [], map[], {p, q});
      && Staged(d, [a, b]) && |DoAll(d, CommitAll([a, b])[..3]).tail| == 1
      && RecoverAll(Crashed(DoAll(d, CommitAll([a, b])[..3]), 1)).logs == Published(map[], "a", 1, a.adds, [])
  {
    var a, b := Intent(1, 1, "a", [SegmentAdd(p, 10)], []), Intent(1, 1, "b", [SegmentAdd(q, 10)], []);
    var d := Disk([], [], map[], {p, q});
    NoPaths(a, p);
    NoPaths(b, q);
    assert Staged(d, [a, b]);
    hide Staged, DoAll, RecoverAll, Crashed, Published;
    AfterOne(d, a, b);
    CrossTableOutcome(d, [a, b], 3, 1);
    assert [a, b][..1] == [a];
    assert [a][..0] == [];
  }

  lemma NoPaths(i: Intent, p: string)
    requires i.adds == [SegmentAdd(p, 10)] && i.dvUpdates == []
    ensures PathSet(i) == {p}
  {
    assert Paths(i) == [p];
  }

  lemma AfterOne(d: Disk, a: Intent, b: Intent)
    requires Staged(d, [a, b])
    ensures |DoAll(d, CommitAll([a, b])[..3]).tail| == 1
  {
    hide DoAll, Published, Staged;
    assert [a, b][..1] == [a] && [a][..0] == [];
    CommitAllPrefix([a, b], 3);
    assert CommitAll([a, b])[..3] == [] + CommitOps(a);
    CommitStep(d, [], a);
  }
}
