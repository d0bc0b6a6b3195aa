// The manifest of a table: an append-only record list, and the segment views
// it resolves to.
module Manifest {
  const MAX_TS: nat := 0xffff_ffff_ffff_ffff

  datatype SegmentAdd = SegmentAdd(path: string, rows: nat)
  datatype DVUpdate = DVUpdate(segment: string, dv: string)

  // path is set only on legacy single-segment records.
  datatype Record = Record(version: nat, commitTs: nat, path: string, rows: nat, dv: string,
                           adds: seq<SegmentAdd>, dvUpdates: seq<DVUpdate>, removes: seq<string>)

  datatype ViewEntry = ViewEntry(version: nat, commitTs: nat, path: string, rows: nat, dv: string, dvTs: nat)

  // ----- what a record does to the view, one event at a time -----

  datatype Event =
    | Add(entry: ViewEntry)
    | SetDV(segment: string, dv: string, ts: nat)
    | Remove(path: string)

  function AddEvents(r: Record, n: nat): (es: seq<Event>)
    requires n <= |r.adds|
    ensures |es| == n
  {
    seq(n, i requires 0 <= i < n => Add(ViewEntry(r.version, r.commitTs, r.adds[i].path, r.adds[i].rows, "", 0)))
  }

  function DVEvents(r: Record, n: nat): (es: seq<Event>)
    requires n <= |r.dvUpdates|
    ensures |es| == n
  {
    seq(n, i requires 0 <= i < n => SetDV(r.dvUpdates[i].segment, r.dvUpdates[i].dv, r.commitTs))
  }

  function RemoveEvents(r: Record, n: nat): (es: seq<Event>)
    requires n <= |r.removes|
    ensures |es| == n
  {
    seq(n, i requires 0 <= i < n => Remove(r.removes[i]))
  }

  function EventsOf(r: Record): (es: seq<Event>) {
    if r.path != "" then [Add(ViewEntry(r.version, r.commitTs, r.path, r.rows, r.dv, 0))]
    else AddEvents(r, |r.adds|) + DVEvents(r, |r.dvUpdates|) + RemoveEvents(r, |r.removes|)
  }

  predicate Reached(log: seq<Record>, upTo: nat) {
    forall i :: 0 <= i < |log| ==> log[i].version <= upTo
  }

  // The events visible at version upTo and timestamp maxTs: nothing from the
  // first record past upTo on, and of the records before it those stamped in time.
  function Visible(log: seq<Record>, upTo: nat, maxTs: nat): (es: seq<Event>) {
    if log == [] then []
    else
      var n := |log| - 1;
      var before := Visible(log[..n], upTo, maxTs);
      if Reached(log, upTo) && log[n].commitTs <= maxTs then before + EventsOf(log[n]) else before
  }

  // ----- the reference view: what was added and not removed, in the order it was added -----

  // Only the last entry added under a path is current: later events on the path concern it alone.
  datatype Slot = Slot(entry: ViewEntry, current: bool)

  predicate IsCurrent(s: Slot, path: string) {
    s.current && s.entry.path == path
  }

  function Superseded(s: Slot, path: string): Slot {
    if IsCurrent(s, path) then s.(current := false) else s
  }

  function Patched(s: Slot, path: string, dv: string, ts: nat): Slot {
    if IsCurrent(s, path) then s.(entry := s.entry.(dv := dv, dvTs := ts)) else s
  }

  function Supersede(view: seq<Slot>, path: string): (v: seq<Slot>)
    ensures |v| == |view| && forall i :: 0 <= i < |view| ==> v[i] == Superseded(view[i], path)
  {
    seq(|view|, i requires 0 <= i < |view| => Superseded(view[i], path))
  }

  function Patch(view: seq<Slot>, path: string, dv: string, ts: nat): (v: seq<Slot>)
    ensures |v| == |view| && forall i :: 0 <= i < |view| ==> v[i] == Patched(view[i], path, dv, ts)
  {
    seq(|view|, i requires 0 <= i < |view| => Patched(view[i], path, dv, ts))
  }

  function Without(view: seq<Slot>, path: string): (v: seq<Slot>) {
    if view == [] then []
    else
      var n := |view| - 1;
      if IsCurrent(view[n], path) then Without(view[..n], path) else Without(view[..n], path) + [view[n]]
  }

  // An entry without a path is never listed.
  function Apply(view: seq<Slot>, e: Event): (v: seq<Slot>) {
    match e
    case Add(entry) => if entry.path == "" then view else Supersede(view, entry.path) + [Slot(entry, true)]
    case SetDV(segment, dv, ts) => Patch(view, segment, dv, ts)
    case Remove(path) => Without(view, path)
  }

  function Slots(es: seq<Event>): (view: seq<Slot>) {
    if es == [] then [] else Apply(Slots(es[..|es| - 1]), es[|es| - 1])
  }

  function Entries(view: seq<Slot>): (es: seq<ViewEntry>)
    ensures |es| == |view| && forall i :: 0 <= i < |view| ==> es[i] == view[i].entry
  {
    seq(|view|, i requires 0 <= i < |view| => view[i].entry)
  }

  function Fold(es: seq<Event>): (view: seq<ViewEntry>) {
    Entries(Slots(es))
  }

  predicate InView(view: seq<ViewEntry>, path: string) {
    exists i :: 0 <= i < |view| && view[i].path == path
  }

  // No path is added while it is in view.
  predicate WellFormed(es: seq<Event>) {
    es == [] ||
    (var n := |es| - 1;
     WellFormed(es[..n]) && (es[n].Add? ==> !InView(Fold(es[..n]), es[n].entry.path)))
  }

  lemma SlotsStep(es: seq<Event>, e: Event)
    ensures Slots(es + [e]) == Apply(Slots(es), e)
    ensures WellFormed(es + [e]) <==> WellFormed(es) && (e.Add? ==> !InView(Fold(es), e.entry.path))
  {
    assert (es + [e])[..|es|] == es;
  }

  lemma {:induction false} WellFormedPrefix(es: seq<Event>, n: nat)
    requires WellFormed(es) && n <= |es|
    ensures WellFormed(es[..n])
  {
    if n < |es| {
      WellFormedPrefix(es[..|es| - 1], n);
      assert es[..|es| - 1][..n] == es[..n];
    } else {
      assert es[..n] == es;
    }
  }

  lemma {:induction false} WithoutMembers(view: seq<Slot>, path: string)
    ensures forall x :: x in Without(view, path) <==> x in view && !IsCurrent(x, path)
  {
    if view != [] {
      WithoutMembers(view[..|view| - 1], path);
      assert view == view[..|view| - 1] + [view[|view| - 1]];
    }
  }

  // ----- the resolver: slots, an index from path to slot, tombstones, compaction -----

  function Compact(out: seq<ViewEntry>): (view: seq<ViewEntry>) {
    if out == [] then []
    else
      var n := |out| - 1;
      if out[n].path == "" then Compact(out[..n]) else Compact(out[..n]) + [out[n]]
  }

  // The index names a slot that holds the path.
  predicate Indexed(out: seq<ViewEntry>, idx: map<string, nat>) {
    forall p :: p in idx ==> idx[p] < |out| && out[idx[p]].path == p
  }

  function Marked(e: ViewEntry, n: nat, idx: map<string, nat>): Slot {
    Slot(e, e.path in idx && idx[e.path] == n)
  }

  // The slots that are not tombstones; the index tells which are current.
  function Live(out: seq<ViewEntry>, idx: map<string, nat>): (view: seq<Slot>) {
    if out == [] then []
    else
      var n := |out| - 1;
      if out[n].path == "" then Live(out[..n], idx) else Live(out[..n], idx) + [Marked(out[n], n, idx)]
  }

  // The slots and the index represent the events applied so far.
  ghost predicate Represents(out: seq<ViewEntry>, idx: map<string, nat>, es: seq<Event>) {
    Indexed(out, idx) && Live(out, idx) == Slots(es)
  }

  // Pointing the index past the slots leaves no slot of the path current.
  lemma {:induction false} LiveReindexed(out: seq<ViewEntry>, idx: map<string, nat>, path: string, k: nat)
    requires |out| <= k
    ensures Live(out, idx[path := k]) == if path == "" then Live(out, idx) else Supersede(Live(out, idx), path)
  {
    if out != [] {
      var n := |out| - 1;
      LiveReindexed(out[..n], idx, path, k);
      assert out[n].path != "" && path != "" ==>
        Superseded(Marked(out[n], n, idx), path) == Marked(out[n], n, idx[path := k]);
    }
  }

  lemma PatchStep(view: seq<Slot>, s: Slot, path: string, dv: string, ts: nat)
    ensures Patch(view + [s], path, dv, ts) == Patch(view, path, dv, ts) + [Patched(s, path, dv, ts)]
  {
  }

  lemma WithoutStep(view: seq<Slot>, s: Slot, path: string)
    ensures Without(view + [s], path) == if IsCurrent(s, path) then Without(view, path) else Without(view, path) + [s]
  {
    assert (view + [s])[..|view|] == view;
  }

  function WithDV(out: seq<ViewEntry>, k: nat, dv: string, ts: nat): (out': seq<ViewEntry>)
    ensures |out'| == |out|
  {
    if k < |out| then out[k := out[k].(dv := dv, dvTs := ts)] else out
  }

  // Writing through the index patches the current slot of the path.
  lemma {:induction false} LivePatch(out: seq<ViewEntry>, idx: map<string, nat>, path: string, dv: string, ts: nat)
    requires path in idx && (idx[path] < |out| ==> out[idx[path]].path == path)
    ensures Live(WithDV(out, idx[path], dv, ts), idx) == Patch(Live(out, idx), path, dv, ts)
  {
    if out != [] {
      hide Patch;
      var n := |out| - 1;
      LivePatch(out[..n], idx, path, dv, ts);
      PatchStep(Live(out[..n], idx), Marked(out[n], n, idx), path, dv, ts);
      assert WithDV(out, idx[path], dv, ts)[..n] == WithDV(out[..n], idx[path], dv, ts);
    } else {
      assert Patch([], path, dv, ts) == [];
    }
  }

  function Blanked(out: seq<ViewEntry>, k: nat): (out': seq<ViewEntry>)
    ensures |out'| == |out|
  {
    if k < |out| then out[k := out[k].(path := "")] else out
  }

  // Blanking through the index drops the current slot of the path.
  lemma {:induction false} LiveRemove(out: seq<ViewEntry>, idx: map<string, nat>, path: string)
    requires path in idx && (idx[path] < |out| ==> out[idx[path]].path == path)
    ensures Live(Blanked(out, idx[path]), idx - {path}) == Without(Live(out, idx), path)
  {
    if out != [] {
      hide Without;
      var n := |out| - 1;
      LiveRemove(out[..n], idx, path);
      WithoutStep(Live(out[..n], idx), Marked(out[n], n, idx), path);
      assert Blanked(out, idx[path])[..n] == Blanked(out[..n], idx[path]);
    }
  }

  // A path the index does not have has no current slot.
  lemma {:induction false} LiveUntouched(out: seq<ViewEntry>, idx: map<string, nat>, path: string, dv: string, ts: nat)
    requires path !in idx
    ensures Patch(Live(out, idx), path, dv, ts) == Live(out, idx)
    ensures Without(Live(out, idx), path) == Live(out, idx)
  {
    if out != [] {
      hide Patch, Without;
      var n := |out| - 1;
      LiveUntouched(out[..n], idx, path, dv, ts);
      PatchStep(Live(out[..n], idx), Marked(out[n], n, idx), path, dv, ts);
      WithoutStep(Live(out[..n], idx), Marked(out[n], n, idx), path);
    } else {
      assert Patch([], path, dv, ts) == [];
    }
  }

  method AddSlot(out: seq<ViewEntry>, idx: map<string, nat>, e: ViewEntry, ghost es: seq<Event>)
    returns (out': seq<ViewEntry>, idx': map<string, nat>)
    requires Represents(out, idx, es)
    ensures Represents(out', idx', es + [Add(e)])
  {
    SlotsStep(es, Add(e));
    out' := out + [e];
    idx' := idx[e.path := |out|];
    LiveReindexed(out, idx, e.path, |out|);
    assert out'[..|out|] == out;
  }

  method SetSlotDV(out: seq<ViewEntry>, idx: map<string, nat>, u: DVUpdate, ts: nat, ghost es: seq<Event>)
    returns (out': seq<ViewEntry>)
    requires Represents(out, idx, es)
    ensures Represents(out', idx, es + [SetDV(u.segment, u.dv, ts)])
  {
    SlotsStep(es, SetDV(u.segment, u.dv, ts));
    if u.segment !in idx {
      LiveUntouched(out, idx, u.segment, u.dv, ts);
      return out;
    }
    var i := idx[u.segment];
    LivePatch(out, idx, u.segment, u.dv, ts);
    out' := out[i := out[i].(dv := u.dv, dvTs := ts)];
  }

  method RemoveSlot(out: seq<ViewEntry>, idx: map<string, nat>, path: string, ghost es: seq<Event>)
    returns (out': seq<ViewEntry>, idx': map<string, nat>)
    requires Represents(out, idx, es)
    ensures Represents(out', idx', es + [Remove(path)])
  {
    SlotsStep(es, Remove(path));
    if path !in idx {
      LiveUntouched(out, idx, path, "", 0);
      return out, idx;
    }
    var i := idx[path];
    LiveRemove(out, idx, path);
    out' := out[i := out[i].(path := "")];
    idx' := idx - {path};
  }

  method ApplyAdds(out: seq<ViewEntry>, idx: map<string, nat>, r: Record, ghost es: seq<Event>)
    returns (out': seq<ViewEntry>, idx': map<string, nat>)
    requires Represents(out, idx, es)
    ensures Represents(out', idx', es + AddEvents(r, |r.adds|))
  {
    hide Represents;
    out', idx' := out, idx;
    assert es + AddEvents(r, 0) == es;
    for n := 0 to |r.adds|
      invariant Represents(out', idx', es + AddEvents(r, n))
    {
      var e := ViewEntry(r.version, r.commitTs, r.adds[n].path, r.adds[n].rows, "", 0);
      assert es + AddEvents(r, n) + [Add(e)] == es + AddEvents(r, n + 1);
      out', idx' := AddSlot(out', idx', e, es + AddEvents(r, n));
    }
  }

  method ApplyDVs(out: seq<ViewEntry>, idx: map<string, nat>, r: Record, ghost es: seq<Event>)
    returns (out': seq<ViewEntry>)
    requires Represents(out, idx, es)
    ensures Represents(out', idx, es + DVEvents(r, |r.dvUpdates|))
  {
    hide Represents;
    out' := out;
    assert es + DVEvents(r, 0) == es;
    for n := 0 to |r.dvUpdates|
      invariant Represents(out', idx, es + DVEvents(r, n))
    {
      var u := r.dvUpdates[n];
      assert es + DVEvents(r, n) + [SetDV(u.segment, u.dv, r.commitTs)] == es + DVEvents(r, n + 1);
      out' := SetSlotDV(out', idx, u, r.commitTs, es + DVEvents(r, n));
    }
  }

  method ApplyRemoves(out: seq<ViewEntry>, idx: map<string, nat>, r: Record, ghost es: seq<Event>)
    returns (out': seq<ViewEntry>, idx': map<string, nat>)
    requires Represents(out, idx, es)
    ensures Represents(out', idx', es + RemoveEvents(r, |r.removes|))
  {
    hide Represents;
    out', idx' := out, idx;
    assert es + RemoveEvents(r, 0) == es;
    for n := 0 to |r.removes|
      invariant Represents(out', idx', es + RemoveEvents(r, n))
    {
      var p := r.removes[n];
      assert es + RemoveEvents(r, n) + [Remove(p)] == es + RemoveEvents(r, n + 1);
      out', idx' := RemoveSlot(out', idx', p, es + RemoveEvents(r, n));
    }
  }

  // One record of the log.
  method ApplyRecord(out: seq<ViewEntry>, idx: map<string, nat>, r: Record, ghost es: seq<Event>)
    returns (out': seq<ViewEntry>, idx': map<string, nat>)
    requires Represents(out, idx, es)
    ensures Represents(out', idx', es + EventsOf(r))
  {
    hide Represents;
    if r.path != "" {
      out', idx' := AddSlot(out, idx, ViewEntry(r.version, r.commitTs, r.path, r.rows, r.dv, 0), es);
      return;
    }
    out', idx' := ApplyAdds(out, idx, r, es);
    out' := ApplyDVs(out', idx', r, es + AddEvents(r, |r.adds|));
    out', idx' := ApplyRemoves(out', idx', r, es + AddEvents(r, |r.adds|) + DVEvents(r, |r.dvUpdates|));
    RecordEvents(es, r);
  }

  lemma RecordEvents(es: seq<Event>, r: Record)
    requires r.path == ""
    ensures es + AddEvents(r, |r.adds|) + DVEvents(r, |r.dvUpdates|) + RemoveEvents(r, |r.removes|) == es + EventsOf(r)
  {
  }

  method CompactSlots(out: seq<ViewEntry>) returns (view: seq<ViewEntry>)
    ensures view == Compact(out)
  {
    view := [];
    for i := 0 to |out|
      invariant view == Compact(out[..i])
    {
      assert out[..i + 1][..i] == out[..i];
      if out[i].path == "" {
        continue;
      }
      view := view + [out[i]];
    }
    assert out[..|out|] == out;
  }

  // The newest version of a log; the next record gets the one after it.
  function Top(log: seq<Record>): (v: nat)
    ensures Reached(log, v)
    ensures v == 0 || exists i :: 0 <= i < |log| && log[i].version == v
  {
    if log == [] then 0
    else
      var n := |log| - 1;
      var before := Top(log[..n]);
      if log[n].version > before then log[n].version else before
  }

  lemma VisibleNothing(upTo: nat, maxTs: nat)
    ensures Visible([], upTo, maxTs) == []
  {
  }

  lemma VisibleStep(log: seq<Record>, r: Record, upTo: nat, maxTs: nat)
    ensures Visible(log + [r], upTo, maxTs)
      == if Reached(log + [r], upTo) && r.commitTs <= maxTs then Visible(log, upTo, maxTs) + EventsOf(r) else Visible(log, upTo, maxTs)
  {
    assert (log + [r])[..|log|] == log;
  }

  lemma {:induction false} VisibleBreak(log: seq<Record>, n: nat, upTo: nat, maxTs: nat)
    requires n <= |log|
    requires n < |log| ==> log[n].version > upTo
    ensures Visible(log, upTo, maxTs) == Visible(log[..n], upTo, maxTs)
  {
    if n < |log| - 1 {
      VisibleBreak(log[..|log| - 1], n, upTo, maxTs);
      assert log[..|log| - 1][..n] == log[..n];
    } else if n == |log| {
      assert log[..n] == log;
    }
  }

  // All versions from the newest one on show the same.
  lemma {:induction false} VisibleBeyond(log: seq<Record>, u: nat, v: nat, maxTs: nat)
    requires Reached(log, u) && Reached(log, v)
    ensures Visible(log, u, maxTs) == Visible(log, v, maxTs)
  {
    if log != [] {
      VisibleBeyond(log[..|log| - 1], u, v, maxTs);
    }
  }

  // The resolver computes the reference view, whatever the log.
  method Resolve(log: seq<Record>, upTo: nat, maxTs: nat) returns (view: seq<ViewEntry>)
    ensures view == Fold(Visible(log, upTo, maxTs))
  {
    hide Represents, Fold, EventsOf, Visible, Compact;
    var out: seq<ViewEntry>, idx: map<string, nat> := EmptySlots();
    VisibleNothing(upTo, maxTs);
    var n := 0;
    while n < |log|
      invariant n <= |log|
      invariant Reached(log[..n], upTo)
      invariant Represents(out, idx, Visible(log[..n], upTo, maxTs))
    {
      if log[n].version > upTo {
        break;
      }
      assert log[..n + 1] == log[..n] + [log[n]];
      VisibleStep(log[..n], log[n], upTo, maxTs);
      if log[n].commitTs > maxTs {
        n := n + 1;
        continue;
      }
      out, idx := ApplyRecord(out, idx, log[n], Visible(log[..n], upTo, maxTs));
      n := n + 1;
    }
    VisibleBreak(log, n, upTo, maxTs);
    view := CompactSlots(out);
    RepresentsFold(out, idx, Visible(log, upTo, maxTs));
  }

  method EmptySlots() returns (out: seq<ViewEntry>, idx: map<string, nat>)
    ensures Represents(out, idx, [])
  {
    out, idx := [], map[];
  }

  lemma {:induction false} LiveEntries(out: seq<ViewEntry>, idx: map<string, nat>)
    ensures Entries(Live(out, idx)) == Compact(out)
  {
    if out != [] { LiveEntries(out[..|out| - 1], idx); }
  }

  lemma RepresentsFold(out: seq<ViewEntry>, idx: map<string, nat>, es: seq<Event>)
    requires Represents(out, idx, es)
    ensures Compact(out) == Fold(es)
  {
    LiveEntries(out, idx);
  }

  // ----- each visible segment carries its latest deletion vector -----

  // Whether path is live, and its deletion vector, by the last event that concerns it.
  function LiveIn(es: seq<Event>, path: string): (live: bool) {
    if es == [] then false
    else
      var n := |es| - 1;
      match es[n]
      case Add(e) => e.path == path || LiveIn(es[..n], path)
      case Remove(p) => p != path && LiveIn(es[..n], path)
      case SetDV(_, _, _) => LiveIn(es[..n], path)
  }

  function LatestDV(es: seq<Event>, path: string): (dv: (string, nat)) {
    if es == [] then ("", 0)
    else
      var n := |es| - 1;
      match es[n]
      case Add(e) => if e.path == path then (e.dv, e.dvTs) else LatestDV(es[..n], path)
      case SetDV(s, d, ts) => if s == path then (d, ts) else LatestDV(es[..n], path)
      case Remove(_) => LatestDV(es[..n], path)
  }

  predicate HasCurrent(view: seq<Slot>, path: string) {
    exists i :: 0 <= i < |view| && IsCurrent(view[i], path)
  }

  predicate OneCurrent(view: seq<Slot>) {
    forall i, j :: 0 <= i < j < |view| && view[i].current && view[j].current ==> view[i].entry.path != view[j].entry.path
  }

  lemma {:induction false} SlotsAreNamed(es: seq<Event>)
    ensures forall x :: x in Slots(es) ==> x.entry.path != ""
  {
    if es != [] {
      var n := |es| - 1;
      SlotsAreNamed(es[..n]);
      var before, after := Slots(es[..n]), Slots(es);
      if es[n].Remove? { WithoutMembers(before, es[n].path); }
      forall x | x in after ensures x.entry.path != "" {
        if !es[n].Remove? {
          var i :| 0 <= i < |after| && after[i] == x;
          if i < |before| { assert before[i] in before; }
        }
      }
    }
  }

  // Of every path at most one slot is current; there is one exactly while the
  // path is live, and it carries the latest deletion vector.
  lemma {:induction false} CurrentIsLatest(es: seq<Event>)
    ensures forall p :: p != "" ==> (HasCurrent(Slots(es), p) <==> LiveIn(es, p))
    ensures forall x :: x in Slots(es) && x.current ==> (x.entry.dv, x.entry.dvTs) == LatestDV(es, x.entry.path)
    ensures OneCurrent(Slots(es))
  {
    if es != [] {
      var n := |es| - 1;
      CurrentIsLatest(es[..n]);
      var before := Slots(es[..n]);
      match es[n] {
        case Add(e) =>
          SlotsAreNamed(es[..n]);
          if e.path != "" { AddCurrent(before, e); }
        case SetDV(s, d, ts) =>
          PatchCurrent(before, s, d, ts);
        case Remove(p) =>
          WithoutMembers(before, p);
          WithoutCurrent(before, p);
      }
    }
  }

  lemma AddCurrent(view: seq<Slot>, e: ViewEntry)
    requires OneCurrent(view)
    ensures var v := Supersede(view, e.path) + [Slot(e, true)];
      && OneCurrent(v)
      && (forall p :: HasCurrent(v, p) <==> p == e.path || HasCurrent(view, p))
      && (forall x :: x in v && x.current ==> x == Slot(e, true) || (x in view && x.entry.path != e.path))
  {
    var s := Supersede(view, e.path);
    var v := s + [Slot(e, true)];
    forall p ensures HasCurrent(v, p) <==> p == e.path || HasCurrent(view, p) {
      assert v[|s|] == Slot(e, true);
      if i :| 0 <= i < |view| && IsCurrent(view[i], p) { assert v[i] == Superseded(view[i], e.path); }
      if p != e.path && HasCurrent(v, p) {
        var i :| 0 <= i < |v| && IsCurrent(v[i], p);
        assert IsCurrent(view[i], p);
      }
    }
  }

  lemma PatchCurrent(view: seq<Slot>, path: string, dv: string, ts: nat)
    requires OneCurrent(view)
    ensures var v := Patch(view, path, dv, ts);
      && OneCurrent(v)
      && (forall p :: HasCurrent(v, p) <==> HasCurrent(view, p))
      && (forall x :: x in v && x.current ==>
            if x.entry.path == path then (x.entry.dv, x.entry.dvTs) == (dv, ts) else x in view)
  {
    var v := Patch(view, path, dv, ts);
    forall p ensures HasCurrent(v, p) <==> HasCurrent(view, p) {
      if i :| 0 <= i < |view| && IsCurrent(view[i], p) { assert IsCurrent(v[i], p); }
      if i :| 0 <= i < |v| && IsCurrent(v[i], p) { assert IsCurrent(view[i], p); }
    }
  }

  lemma HasCurrentMember(view: seq<Slot>, p: string)
    ensures HasCurrent(view, p) <==> exists x :: x in view && IsCurrent(x, p)
  {
    if x :| x in view && IsCurrent(x, p) {
      var i :| 0 <= i < |view| && view[i] == x;
    }
  }

  lemma WithoutCurrent(view: seq<Slot>, path: string)
    requires OneCurrent(view)
    ensures OneCurrent(Without(view, path))
    ensures forall p :: HasCurrent(Without(view, path), p) <==> p != path && HasCurrent(view, p)
  {
    WithoutMembers(view, path);
    forall p ensures HasCurrent(Without(view, path), p) <==> p != path && HasCurrent(view, p) {
      HasCurrentMember(view, p);
      HasCurrentMember(Without(view, path), p);
    }
    WithoutOne(view, path);
  }

  lemma {:induction false} WithoutOne(view: seq<Slot>, path: string)
    requires OneCurrent(view)
    ensures OneCurrent(Without(view, path))
  {
    if view != [] {
      var n := |view| - 1;
      WithoutOne(view[..n], path);
      WithoutMembers(view[..n], path);
      var w := Without(view[..n], path);
      forall i | 0 <= i < |w| ensures w[i].current && view[n].current ==> w[i].entry.path != view[n].entry.path {
        assert w[i] in view[..n];
        var k :| 0 <= k < n && view[..n][k] == w[i];
        assert view[k] == w[i];
      }
    }
  }

  // While no path is added again in view, every slot is current.
  lemma {:induction false} AllCurrent(es: seq<Event>)
    requires WellFormed(es)
    ensures forall x :: x in Slots(es) ==> x.current
  {
    if es != [] {
      var n := |es| - 1;
      AllCurrent(es[..n]);
      var before := Slots(es[..n]);
      match es[n] {
        case Add(e) =>
          forall i | 0 <= i < |before| ensures Superseded(before[i], e.path) == before[i] {
            assert before[i] in before;
            assert Fold(es[..n])[i].path == before[i].entry.path;
          }
        case SetDV(s, d, ts) =>
          var v := Patch(before, s, d, ts);
          forall i | 0 <= i < |v| ensures v[i].current {
            assert before[i] in before;
          }
        case Remove(p) => WithoutMembers(before, p);
      }
    }
  }

  // The view lists exactly the live segments, each once, with its latest deletion vector.
  lemma ViewIsLatest(es: seq<Event>)
    requires WellFormed(es)
    ensures forall p :: p != "" ==> (InView(Fold(es), p) <==> LiveIn(es, p))
    ensures forall i :: 0 <= i < |Fold(es)| ==> (Fold(es)[i].dv, Fold(es)[i].dvTs) == LatestDV(es, Fold(es)[i].path)
    ensures forall i, j :: 0 <= i < j < |Fold(es)| ==> Fold(es)[i].path != Fold(es)[j].path
  {
    hide LiveIn, LatestDV, Slots;
    CurrentIsLatest(es);
    AllCurrent(es);
    var view := Slots(es);
    assert forall i :: 0 <= i < |view| ==> view[i] in view;
    forall p | p != "" ensures InView(Fold(es), p) <==> LiveIn(es, p) {
      if i :| 0 <= i < |view| && IsCurrent(view[i], p) { assert Fold(es)[i].path == p; }
      if InView(Fold(es), p) {
        var i :| 0 <= i < |view| && Fold(es)[i].path == p;
        assert IsCurrent(view[i], p);
      }
    }
  }

  // ----- where an entry comes from -----

  // Record k is in force at this version and timestamp.
  predicate InForce(log: seq<Record>, k: nat, upTo: nat, maxTs: nat) {
    k < |log| && (forall j :: 0 <= j <= k ==> log[j].version <= upTo) && log[k].commitTs <= maxTs
  }

  // The record adds this segment, and the entry names the record.
  predicate AddsEntry(r: Record, e: ViewEntry) {
    && e.version == r.version && e.commitTs == r.commitTs
    && (if r.path != "" then e.path == r.path && e.rows == r.rows else SegmentAdd(e.path, e.rows) in r.adds)
  }

  // The deletion vector is one the record gives the segment, or none.
  predicate GivesDV(r: Record, e: ViewEntry) {
    if r.path != "" then e.path == r.path && e.dv == r.dv && e.dvTs == 0
    else e.dvTs == r.commitTs && DVUpdate(e.path, e.dv) in r.dvUpdates
  }

  ghost predicate IsEventOf(log: seq<Record>, k: nat, upTo: nat, maxTs: nat, e: Event) {
    InForce(log, k, upTo, maxTs) && e in EventsOf(log[k])
  }

  lemma {:induction false} VisibleAre(log: seq<Record>, upTo: nat, maxTs: nat)
    ensures forall e :: e in Visible(log, upTo, maxTs) <==> exists k: nat :: IsEventOf(log, k, upTo, maxTs, e)
  {
    hide EventsOf;
    if log != [] {
      var n := |log| - 1;
      VisibleAre(log[..n], upTo, maxTs);
      forall k: nat, e ensures k < n ==> (IsEventOf(log, k, upTo, maxTs, e) <==> IsEventOf(log[..n], k, upTo, maxTs, e)) {
        if k < n { assert log[..n][k] == log[k] && forall j :: 0 <= j <= k ==> log[..n][j] == log[j]; }
      }
      forall e ensures e in Visible(log, upTo, maxTs) <==> exists k: nat :: IsEventOf(log, k, upTo, maxTs, e) {
        if e in Visible(log[..n], upTo, maxTs) {
          var k: nat :| IsEventOf(log[..n], k, upTo, maxTs, e);
          assert IsEventOf(log, k, upTo, maxTs, e);
        } else if e in Visible(log, upTo, maxTs) {
          assert IsEventOf(log, n, upTo, maxTs, e);
        }
        if k: nat :| IsEventOf(log, k, upTo, maxTs, e) {
          if k < n { assert IsEventOf(log[..n], k, upTo, maxTs, e); }
        }
      }
    }
  }

  ghost predicate FromEvents(es: seq<Event>, x: ViewEntry) {
    && (exists a :: Add(a) in es && a.version == x.version && a.commitTs == x.commitTs && a.path == x.path && a.rows == x.rows)
    && ((exists a :: Add(a) in es && a.path == x.path && a.dv == x.dv && a.dvTs == x.dvTs) || SetDV(x.path, x.dv, x.dvTs) in es)
  }

  lemma {:induction false} SlotsFromEvents(es: seq<Event>)
    ensures forall x :: x in Slots(es) ==> FromEvents(es, x.entry)
  {
    if es != [] {
      var n := |es| - 1;
      SlotsFromEvents(es[..n]);
      var before, after := Slots(es[..n]), Slots(es);
      forall x: ViewEntry | FromEvents(es[..n], x) ensures FromEvents(es, x) { StillFrom(es, x); }
      if es[n].Remove? { WithoutMembers(before, es[n].path); }
      forall i | 0 <= i < |after| ensures FromEvents(es, after[i].entry) {
        match es[n] {
          case Add(e) => if i < |before| { assert before[i] in before; }
          case SetDV(s, d, ts) => assert before[i] in before; Repatched(es, before[i], after[i]);
          case Remove(p) => assert after[i] in after;
        }
      }
    }
  }

  lemma StillFrom(es: seq<Event>, x: ViewEntry)
    requires es != [] && FromEvents(es[..|es| - 1], x)
    ensures FromEvents(es, x)
  {
  }

  lemma Repatched(es: seq<Event>, b: Slot, a: Slot)
    requires es != [] && FromEvents(es, b.entry) && es[|es| - 1].SetDV?
    requires a == Patched(b, es[|es| - 1].segment, es[|es| - 1].dv, es[|es| - 1].ts)
    ensures FromEvents(es, a.entry)
  {
    assert es[|es| - 1] in es;
  }

  // Every entry of a view was added, with its version, timestamp and row count,
  // by a record in force, and so was its deletion vector.
  lemma EntryHasOrigin(log: seq<Record>, upTo: nat, maxTs: nat, i: nat)
    requires i < |Fold(Visible(log, upTo, maxTs))|
    ensures var x := Fold(Visible(log, upTo, maxTs))[i];
      && (exists k: nat :: InForce(log, k, upTo, maxTs) && AddsEntry(log[k], x))
      && ((x.dv == "" && x.dvTs == 0) || exists k: nat :: InForce(log, k, upTo, maxTs) && GivesDV(log[k], x))
  {
    hide Slots, Visible, EventsOf, AddsEntry, GivesDV;
    var es := Visible(log, upTo, maxTs);
    VisibleAre(log, upTo, maxTs);
    SlotsFromEvents(es);
    assert Slots(es)[i] in Slots(es);
    var x := Slots(es)[i].entry;
    var a :| Add(a) in es && a.version == x.version && a.commitTs == x.commitTs && a.path == x.path && a.rows == x.rows;
    var k: nat :| IsEventOf(log, k, upTo, maxTs, Add(a));
    EventsSay(log[k], Add(a), x);
    if c :| Add(c) in es && c.path == x.path && c.dv == x.dv && c.dvTs == x.dvTs {
      var j: nat :| IsEventOf(log, j, upTo, maxTs, Add(c));
      EventsSay(log[j], Add(c), x);
    } else {
      var j: nat :| IsEventOf(log, j, upTo, maxTs, SetDV(x.path, x.dv, x.dvTs));
      EventsSay(log[j], SetDV(x.path, x.dv, x.dvTs), x);
    }
  }

  lemma EventsSay(r: Record, e: Event, x: ViewEntry)
    requires e in EventsOf(r)
    ensures e.Add? && e.entry.version == x.version && e.entry.commitTs == x.commitTs && e.entry.path == x.path && e.entry.rows == x.rows ==> AddsEntry(r, x)
    ensures e.Add? && e.entry.path == x.path && e.entry.dv == x.dv && e.entry.dvTs == x.dvTs ==> GivesDV(r, x) || (x.dv == "" && x.dvTs == 0)
    ensures e == SetDV(x.path, x.dv, x.dvTs) ==> GivesDV(r, x)
  {
    if r.path == "" {
      var i :| 0 <= i < |EventsOf(r)| && EventsOf(r)[i] == e;
      if i < |r.adds| { assert r.adds[i] in r.adds; } else if i < |r.adds| + |r.dvUpdates| { assert r.dvUpdates[i - |r.adds|] in r.dvUpdates; }
    }
  }

  lemma WithoutNothing(path: string)
    ensures Without([], path) == []
  {
  }

  lemma TwoAdds(a: ViewEntry, b: ViewEntry)
    requires a.path == b.path != ""
    ensures Slots([Add(a), Add(b)]) == [Slot(a, false), Slot(b, true)]
  {
    SlotsStep([], Add(a));
    assert [] + [Add(a)] == [Add(a)];
    assert Slots([Add(a)]) == [Slot(a, true)];
    SlotsStep([Add(a)], Add(b));
    assert [Add(a)] + [Add(b)] == [Add(a), Add(b)];
  }

  // Without the condition it fails: the entry added first stays in view and misses the update.
  lemma AddedTwice(a: ViewEntry, b: ViewEntry, dv: string, ts: nat)
    requires a.path == b.path != ""
    ensures Fold([Add(a), Add(b), SetDV(b.path, dv, ts)]) == [a, b.(dv := dv, dvTs := ts)]
    ensures Fold([Add(a), Add(b), Remove(b.path)]) == [a] && !LiveIn([Add(a), Add(b), Remove(b.path)], a.path)
  {
    hide Slots, Without;
    var two := [Slot(a, false), Slot(b, true)];
    TwoAdds(a, b);
    SlotsStep([Add(a), Add(b)], SetDV(b.path, dv, ts));
    SlotsStep([Add(a), Add(b)], Remove(b.path));
    assert [Add(a), Add(b)] + [SetDV(b.path, dv, ts)] == [Add(a), Add(b), SetDV(b.path, dv, ts)];
    assert [Add(a), Add(b)] + [Remove(b.path)] == [Add(a), Add(b), Remove(b.path)];
    WithoutStep([Slot(a, false)], Slot(b, true), b.path);
    WithoutStep([], Slot(a, false), b.path);
    assert [Slot(a, false)] + [Slot(b, true)] == two && [] + [Slot(a, false)] == [Slot(a, false)];
    WithoutNothing(b.path);
  }

  // ----- which paths are in view -----

  lemma InViewStep(es: seq<Event>, e: Event, p: string)
    ensures InView(Fold(es + [e]), p) ==> InView(Fold(es), p) || (e.Add? && e.entry.path == p != "")
    ensures !e.Remove? ==> (InView(Fold(es + [e]), p) <==> InView(Fold(es), p) || (e.Add? && e.entry.path == p != ""))
  {
    SlotsStep(es, e);
    var a, b := Slots(es), Slots(es + [e]);
    if InView(Fold(es + [e]), p) {
      var i :| 0 <= i < |b| && b[i].entry.path == p;
      if e.Remove? {
        WithoutMembers(a, e.path);
        assert b[i] in a;
        var k :| 0 <= k < |a| && a[k] == b[i];
        assert Fold(es)[k].path == p;
      } else if i < |a| {
        assert Fold(es)[i].path == p;
      }
    }
    if !e.Remove? && InView(Fold(es), p) {
      var i :| 0 <= i < |a| && a[i].entry.path == p;
      assert Fold(es + [e])[i].path == p;
    }
    if e.Add? && e.entry.path == p != "" { assert Fold(es + [e])[|a|].path == p; }
  }
}
