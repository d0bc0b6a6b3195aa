// Which transactions a replayed log still owes an outcome.
module TxnGroups {
  import opened Options
  import opened Manifest

  datatype Intent = Intent(txn: nat, commitTs: nat, table: string, adds: seq<SegmentAdd>, dvUpdates: seq<DVUpdate>)

  // A log record after its payload has been decoded; Garbled is an intent or
  // commit record whose payload does not decode.
  datatype Entry = Intend(intent: Intent) | Committed(txn: nat) | Checkpoint | Garbled

  predicate Readable(log: seq<Entry>) {
    forall i :: 0 <= i < |log| ==> !log[i].Garbled?
  }

  // ----- reference definitions -----

  // The intents of a transaction since its last commit record.
  function Pending(log: seq<Entry>, id: nat): (p: seq<Intent>) {
    if log == [] then []
    else
      var n := |log| - 1;
      match log[n]
      case Intend(v) => if v.txn == id then Pending(log[..n], id) + [v] else Pending(log[..n], id)
      case Committed(t) => if t == id then [] else Pending(log[..n], id)
      case _ => Pending(log[..n], id)
  }

  // Transactions in the order of their first intent.
  function FirstSeen(log: seq<Entry>): (ids: seq<nat>) {
    if log == [] then []
    else
      var n := |log| - 1;
      var ids := FirstSeen(log[..n]);
      if log[n].Intend? && log[n].intent.txn !in ids then ids + [log[n].intent.txn] else ids
  }

  function GroupsOf(log: seq<Entry>, ids: seq<nat>): (gs: seq<seq<Intent>>) {
    if ids == [] then []
    else
      var n := |ids| - 1;
      var p := Pending(log, ids[n]);
      GroupsOf(log, ids[..n]) + if p == [] then [] else [p]
  }

  function Groups(log: seq<Entry>): (gs: seq<seq<Intent>>) {
    GroupsOf(log, FirstSeen(log))
  }

  function Flatten(gs: seq<seq<Intent>>): (p: seq<Intent>) {
    if gs == [] then [] else Flatten(gs[..|gs| - 1]) + gs[|gs| - 1]
  }

  function IntentsOf(log: seq<Entry>, id: nat): (p: seq<Intent>) {
    if log == [] then []
    else
      var n := |log| - 1;
      IntentsOf(log[..n], id) + if log[n].Intend? && log[n].intent.txn == id then [log[n].intent] else []
  }

  // ----- what the definitions mean -----

  lemma IntentsAppend(log: seq<Entry>, e: Entry, id: nat)
    ensures IntentsOf(log + [e], id) == IntentsOf(log, id) + if e.Intend? && e.intent.txn == id then [e.intent] else []
    ensures Pending(log + [e], id)
      == if e == Committed(id) then []
         else Pending(log, id) + if e.Intend? && e.intent.txn == id then [e.intent] else []
  {
    assert (log + [e])[..|log|] == log;
  }

  lemma NoIntents(id: nat)
    ensures IntentsOf([], id) == []
  {
  }

  // Pending is every intent after some cut, where the cut is the start of the
  // log or the last commit record of the transaction.
  lemma {:induction false} PendingIsAfterLastCommit(log: seq<Entry>, id: nat) returns (cut: nat)
    ensures cut <= |log|
    ensures cut == 0 || log[cut - 1] == Committed(id)
    ensures Committed(id) !in log[cut..]
    ensures Pending(log, id) == IntentsOf(log[cut..], id)
  {
    if log == [] {
      return 0;
    }
    hide Pending, IntentsOf;
    var front, e := log[..|log| - 1], log[|log| - 1];
    assert log == front + [e];
    IntentsAppend(front, e, id);
    if e == Committed(id) {
      cut := |log|;
      NoIntents(id);
    } else {
      cut := PendingIsAfterLastCommit(front, id);
      ghost var since := front[cut..];
      IntentsAppend(since, e, id);
      assert log[cut..] == since + [e];
      assert cut > 0 ==> log[cut - 1] == front[cut - 1];
    }
  }

  lemma {:induction false} FirstSeenIsDistinct(log: seq<Entry>)
    ensures forall i, j :: 0 <= i < j < |FirstSeen(log)| ==> FirstSeen(log)[i] != FirstSeen(log)[j]
    ensures forall id :: id in FirstSeen(log) <==> exists i :: 0 <= i < |log| && log[i].Intend? && log[i].intent.txn == id
  {
    if log != [] {
      var n := |log| - 1;
      FirstSeenIsDistinct(log[..n]);
      assert forall i :: 0 <= i < n ==> log[..n][i] == log[i];
    }
  }

  lemma {:induction false} PendingIsSeen(log: seq<Entry>, id: nat)
    ensures Pending(log, id) != [] ==> id in FirstSeen(log)
    ensures forall v :: v in Pending(log, id) ==> v.txn == id
  {
    if log != [] { PendingIsSeen(log[..|log| - 1], id); }
  }

  // A group is exactly the non-empty pending list of one transaction.
  lemma {:induction false} GroupsArePending(log: seq<Entry>, ids: seq<nat>)
    ensures forall g :: g in GroupsOf(log, ids) ==> g != [] && exists id :: id in ids && g == Pending(log, id)
    ensures forall id :: id in ids && Pending(log, id) != [] ==> Pending(log, id) in GroupsOf(log, ids)
  {
    if ids != [] {
      var n := |ids| - 1;
      GroupsArePending(log, ids[..n]);
      assert ids == ids[..n] + [ids[n]];
      forall g | g in GroupsOf(log, ids) ensures g != [] && exists id :: id in ids && g == Pending(log, id) {
        if g in GroupsOf(log, ids[..n]) {
          var id :| id in ids[..n] && g == Pending(log, id);
          assert id in ids;
        } else {
          assert ids[n] in ids;
        }
      }
    }
  }

  lemma {:induction false} FlattenAppend(gs: seq<seq<Intent>>, g: seq<Intent>)
    ensures Flatten(gs + [g]) == Flatten(gs) + g
  {
    assert (gs + [g])[..|gs|] == gs;
  }

  // ----- the two walks over the log -----

  // The map and order list the walks build: intents maps a transaction to its
  // pending list, and a missing key stands for the empty list.
  ghost predicate Tracks(intents: map<nat, seq<Intent>>, order: seq<nat>, seen: set<nat>, log: seq<Entry>) {
    && order == FirstSeen(log)
    && (forall id :: id in seen <==> id in order)
    && (forall id :: Pending(log, id) == if id in intents then intents[id] else [])
    && (forall id :: id in intents ==> intents[id] != [])
  }

  lemma TracksStep(intents: map<nat, seq<Intent>>, order: seq<nat>, seen: set<nat>, log: seq<Entry>, e: Entry,
                   intents': map<nat, seq<Intent>>, order': seq<nat>, seen': set<nat>)
    requires Tracks(intents, order, seen, log)
    requires e.Intend? ==>
      && order' == (if e.intent.txn in seen then order else order + [e.intent.txn])
      && seen' == seen + {e.intent.txn}
      && intents' == intents[e.intent.txn := (if e.intent.txn in intents then intents[e.intent.txn] else []) + [e.intent]]
    requires !e.Intend? ==> order' == order && seen' == seen
    requires e.Committed? ==> intents' == intents - {e.txn}
    requires e.Checkpoint? || e.Garbled? ==> intents' == intents
    ensures Tracks(intents', order', seen', log + [e])
  {
    assert (log + [e])[..|log|] == log;
  }

  method Walk(log: seq<Entry>) returns (ok: bool, intents: map<nat, seq<Intent>>, order: seq<nat>)
    ensures ok <==> Readable(log)
    ensures ok ==> order == FirstSeen(log) && GroupsOf(log, order) == Groups(log)
    ensures ok ==> forall id :: Pending(log, id) == if id in intents then intents[id] else []
    ensures ok ==> forall id :: id in intents ==> intents[id] != []
  {
    hide Tracks;
    var seen: set<nat>;
    intents, order, seen := EmptyWalk();
    for n := 0 to |log|
      invariant Readable(log[..n]) && Tracks(intents, order, seen, log[..n])
    {
      assert log[..n + 1] == log[..n] + [log[n]];
      ghost var intents0, order0, seen0 := intents, order, seen;
      match log[n] {
        case Intend(v) =>
          if v.txn !in seen {
            order := order + [v.txn];
          }
          seen := seen + {v.txn};
          intents := intents[v.txn := (if v.txn in intents then intents[v.txn] else []) + [v]];
        case Committed(t) =>
          intents := intents - {t};
        case Checkpoint =>
        case Garbled =>
          return false, intents, order;
      }
      TracksStep(intents0, order0, seen0, log[..n], log[n], intents, order, seen);
    }
    assert log[..|log|] == log;
    WalkLookup(intents, order, seen, log);
    ok := true;
  }

  method EmptyWalk() returns (intents: map<nat, seq<Intent>>, order: seq<nat>, seen: set<nat>)
    ensures Tracks(intents, order, seen, [])
  {
    intents, order, seen := map[], [], {};
  }

  lemma WalkLookup(intents: map<nat, seq<Intent>>, order: seq<nat>, seen: set<nat>, log: seq<Entry>)
    requires Tracks(intents, order, seen, log)
    ensures order == FirstSeen(log) && GroupsOf(log, order) == Groups(log)
    ensures forall id :: Pending(log, id) == if id in intents then intents[id] else []
    ensures forall id :: id in intents ==> intents[id] != []
  {
  }

  lemma FlattenNothing(log: seq<Entry>)
    ensures Flatten(GroupsOf(log, [])) == []
  {
  }

  lemma FlattenStep(log: seq<Entry>, ids: seq<nat>, id: nat)
    ensures Flatten(GroupsOf(log, ids + [id])) == Flatten(GroupsOf(log, ids)) + Pending(log, id)
  {
    var gs, p := GroupsOf(log, ids), Pending(log, id);
    assert (ids + [id])[..|ids|] == ids;
    FlattenAppend(gs, p);
    if p == [] {
      assert GroupsOf(log, ids + [id]) == gs;
    }
  }

  method PendingTxnGroups(log: seq<Entry>) returns (r: Option<seq<seq<Intent>>>)
    ensures r == if Readable(log) then Some(Groups(log)) else None
  {
    var ok, intents, order := Walk(log);
    if !ok {
      return None;
    }
    var out: seq<seq<Intent>> := [];
    for n := 0 to |order|
      invariant out == GroupsOf(log, order[..n])
    {
      assert order[..n + 1][..n] == order[..n];
      assert Pending(log, order[n]) != [] <==> order[n] in intents;
      if order[n] in intents {
        out := out + [intents[order[n]]];
      }
    }
    assert order[..|order|] == order;
    r := Some(out);
  }

  // The flat list is the groups run together.
  method PendingTxns(log: seq<Entry>) returns (r: Option<seq<Intent>>)
    ensures r == if Readable(log) then Some(Flatten(Groups(log))) else None
  {
    hide *;
    var ok, intents, order := Walk(log);
    if !ok {
      return None;
    }
    FlattenNothing(log);
    assert order[..0] == [];
    var out: seq<Intent> := [];
    for n := 0 to |order|
      invariant out == Flatten(GroupsOf(log, order[..n]))
    {
      var g := if order[n] in intents then intents[order[n]] else [];
      assert order[..n + 1] == order[..n] + [order[n]];
      FlattenStep(log, order[..n], order[n]);
      out := out + g;
    }
    assert order[..|order|] == order;
    r := Some(out);
  }
}
