/**
 Pending ownership updates: versioned records that can also be cleared.

 A clear moves the current update into the history and leaves no marker, so a rollback answers
 with the last surviving initiation whether or not it had been cleared since.
 */
module PendingUpdates {
  import opened Common
  import opened Versions

  function Cleared<T>(r: Record<T>, peak: u32): Record<T> {
    if r.current.Some? then Record(None, Pruned(Held(r), peak)) else r
  }

  method ClearPendingCurrent<T>(rec: VersionedRecord<T>, peak: u32)
    modifies rec
    ensures rec.Value() == Cleared(old(rec.Value()), peak)
    ensures rec.current == None
  {
    if rec.current.Some? {
      rec.history := rec.history + [rec.current.value];
      rec.current := None;
      rec.PruneHistory(peak);
    }
  }

  /** The record answers every rollback within the retention like the log of surviving initiations. */
  ghost predicate Answers<T>(r: Record<T>, initiated: seq<Entry<T>>, hw: nat) {
    && Sorted(Held(r))
    && Sorted(initiated)
    && (Held(r) != [] && initiated != [] ==>
          Held(r)[|Held(r)| - 1].height <= initiated[|initiated| - 1].height)
    && (initiated == [] ==> Held(r) == [])
    && Agree(Held(r), initiated, hw)
  }

  lemma InitiateAnswers<T>(r: Record<T>, initiated: seq<Entry<T>>, hw: nat, e: Entry<T>, peak: u32)
    requires Answers(r, initiated, hw)
    requires initiated != [] ==> LastOf(initiated).value.height <= e.height
    ensures Answers(Pushed(r, e, peak), initiated + [e], Max(hw, peak))
  {
    assert Held(Pushed(r, e, peak)) == Pruned(Held(r), peak) + [e];
    PushAgrees(Held(r), initiated, hw, e, peak);
    PushHeld(Held(r), e, peak);
    SortedSnoc(initiated, e);
  }

  lemma ClearAnswers<T>(r: Record<T>, initiated: seq<Entry<T>>, hw: nat, peak: u32)
    requires Answers(r, initiated, hw)
    ensures Answers(Cleared(r, peak), initiated, Max(hw, peak))
  {
    if r.current.Some? {
      PruneShape(Held(r), peak);
      PruneAgrees(Held(r), initiated, hw, peak);
      assert Held(Cleared(r, peak)) == Pruned(Held(r), peak);
    }
  }

  /** Right after a rollback within the retention, the current update is the last surviving initiation. */
  lemma RollbackAnswers<T>(r: Record<T>, initiated: seq<Entry<T>>, hw: nat, from: nat)
    requires Answers(r, initiated, hw)
    requires SatSub(hw, RETENTION) <= from
    ensures RolledBack(r, from).current == LastOf(Below(initiated, from))
    ensures Answers(RolledBack(r, from), Below(initiated, from), hw)
  {
    RollbackHeld(r, from, from);
    RollbackAgrees(r, initiated, hw, from);
    BelowSorted(initiated, from);
    var restored := RolledBack(r, from);
    if restored.current.Some? {
      assert Held(restored)[|Held(restored)| - 1] == restored.current.value;
    }
  }

  // ---------------------------------------------------------------------------------
  // Whole runs against the replayed event log
  // ---------------------------------------------------------------------------------

  datatype Event<+T> = Initiate(e: Entry<T>) | Clear(at: u32) {
    function Height(): u32 {
      if Initiate? then e.height else at
    }
  }

  function ApplyEvent<T>(r: Record<T>, ev: Event<T>): Record<T> {
    match ev
    case Initiate(e) => Pushed(r, e, e.height)
    case Clear(at) => Cleared(r, at)
  }

  function ApplyEvents<T>(evs: seq<Event<T>>): Record<T> {
    if evs == [] then Record(None, [])
    else ApplyEvent(ApplyEvents(evs[..|evs| - 1]), evs[|evs| - 1])
  }

  function Initiations<T>(evs: seq<Event<T>>): seq<Entry<T>> {
    if evs == [] then []
    else
      var rest := Initiations(evs[..|evs| - 1]);
      if evs[|evs| - 1].Initiate? then rest + [evs[|evs| - 1].e] else rest
  }

  function HighWater<T>(evs: seq<Event<T>>): nat {
    if evs == [] then 0 else Max(HighWater(evs[..|evs| - 1]), evs[|evs| - 1].Height())
  }

  /** Without a rollback a record shows the update of its last event, and none once that is a clear. */
  lemma CurrentIsLastEvent<T>(evs: seq<Event<T>>)
    ensures ApplyEvents(evs).current ==
      if evs != [] && evs[|evs| - 1].Initiate? then Some(evs[|evs| - 1].e) else None
    decreases |evs|
  {
    if evs != [] {
      CurrentIsLastEvent(evs[..|evs| - 1]);
    }
  }

  /** The ideal: what a listener that had only ever seen the events below `from` would hold. */
  function Replay<T>(evs: seq<Event<T>>, from: nat): Option<Entry<T>> {
    if evs == [] then None
    else
      var ev := evs[|evs| - 1];
      if ev.Height() >= from then Replay(evs[..|evs| - 1], from)
      else if ev.Initiate? then Some(ev.e) else None
  }

  ghost predicate Ordered<T>(evs: seq<Event<T>>) {
    forall i, j :: 0 <= i < j < |evs| ==> evs[i].Height() <= evs[j].Height()
  }

  ghost predicate InitiatedBefore<T>(evs: seq<Event<T>>, j: nat, from: nat)
    requires j <= |evs|
  {
    exists i :: 0 <= i < j && evs[i].Initiate? && evs[i].Height() < from
  }

  /** Event `j` is a clear below `from` that follows the last initiation below `from`. */
  ghost predicate ClearsAt<T>(evs: seq<Event<T>>, j: nat, from: nat)
    requires j < |evs|
  {
    && evs[j].Clear? && evs[j].Height() < from && InitiatedBefore(evs, j, from)
    && forall k :: j < k < |evs| && evs[k].Initiate? ==> from <= evs[k].Height()
  }

  ghost predicate ClearedSince<T>(evs: seq<Event<T>>, from: nat) {
    exists j :: 0 <= j < |evs| && ClearsAt(evs, j, from)
  }

  lemma {:induction false} InitiationsBounded<T>(evs: seq<Event<T>>)
    requires Ordered(evs)
    ensures forall i :: 0 <= i < |evs| ==> evs[i].Height() <= HighWater(evs)
    ensures evs != [] ==> HighWater(evs) == evs[|evs| - 1].Height()
    ensures Initiations(evs) != [] ==> LastOf(Initiations(evs)).value.height <= HighWater(evs)
  {
    if evs != [] {
      InitiationsBounded(evs[..|evs| - 1]);
    }
  }

  lemma {:induction false} EventsAnswer<T>(evs: seq<Event<T>>)
    requires Ordered(evs)
    ensures Answers(ApplyEvents(evs), Initiations(evs), HighWater(evs))
  {
    if evs != [] {
      var front, ev := evs[..|evs| - 1], evs[|evs| - 1];
      EventsAnswer(front);
      InitiationsBounded(front);
      InitiationsBounded(evs);
      match ev {
        case Initiate(e) => InitiateAnswers(ApplyEvents(front), Initiations(front), HighWater(front), e, e.height);
        case Clear(at) => ClearAnswers(ApplyEvents(front), Initiations(front), HighWater(front), at);
      }
    }
  }

  lemma LateEvent<T>(front: seq<Event<T>>, ev: Event<T>, from: nat)
    requires ev.Height() >= from
    ensures ClearedSince(front + [ev], from) <==> ClearedSince(front, from)
    ensures InitiatedBefore(front + [ev], |front| + 1, from) <==> InitiatedBefore(front, |front|, from)
  {
    var evs := front + [ev];
    assert evs[|front|] == ev;
    BeforeAgrees(front, ev, |front|, from);
    forall j: nat | j < |front| ensures ClearsAt(evs, j, from) <==> ClearsAt(front, j, from) {
      ClearsAgree(front, ev, j, from);
    }
  }

  lemma BeforeAgrees<T>(front: seq<Event<T>>, ev: Event<T>, j: nat, from: nat)
    requires j <= |front|
    ensures InitiatedBefore(front + [ev], j, from) <==> InitiatedBefore(front, j, from)
  {
    var evs := front + [ev];
    if InitiatedBefore(front, j, from) {
      var i :| 0 <= i < j && front[i].Initiate? && front[i].Height() < from;
      assert evs[i] == front[i];
    }
    if InitiatedBefore(evs, j, from) {
      var i :| 0 <= i < j && evs[i].Initiate? && evs[i].Height() < from;
      assert evs[i] == front[i];
    }
  }

  lemma ClearsAgree<T>(front: seq<Event<T>>, ev: Event<T>, j: nat, from: nat)
    requires j < |front| && ev.Height() >= from
    ensures ClearsAt(front + [ev], j, from) <==> ClearsAt(front, j, from)
  {
    var evs := front + [ev];
    BeforeAgrees(front, ev, j, from);
    forall k | j <= k < |front| ensures evs[k] == front[k] {
    }
    assert evs[|front|] == ev;
  }

  lemma LastInitiation<T>(front: seq<Event<T>>, ev: Event<T>, from: nat)
    requires ev.Initiate? && ev.Height() < from
    ensures !ClearedSince(front + [ev], from) && InitiatedBefore(front + [ev], |front| + 1, from)
  {
    assert (front + [ev])[|front|] == ev;
  }

  lemma LastClear<T>(front: seq<Event<T>>, ev: Event<T>, from: nat)
    requires ev.Clear? && ev.Height() < from
    ensures ClearedSince(front + [ev], from) <==> InitiatedBefore(front, |front|, from)
    ensures InitiatedBefore(front + [ev], |front| + 1, from) <==> InitiatedBefore(front, |front|, from)
  {
    var evs := front + [ev];
    assert evs[|front|] == ev;
    BeforeAgrees(front, ev, |front|, from);
    if ClearedSince(evs, from) {
      var j :| 0 <= j < |evs| && ClearsAt(evs, j, from);
      var i :| 0 <= i < j && evs[i].Initiate? && evs[i].Height() < from;
      assert front[i] == evs[i];
    }
    if InitiatedBefore(front, |front|, from) {
      assert ClearsAt(evs, |front|, from);
    }
  }

  /** Replaying and restoring differ exactly by a clear after the last initiation. */
  lemma {:induction false} ReplayOrRestore<T>(evs: seq<Event<T>>, from: nat)
    ensures Replay(evs, from) == Latest(Initiations(evs), from) <==> !ClearedSince(evs, from)
    ensures Latest(Initiations(evs), from).Some? <==> InitiatedBefore(evs, |evs|, from)
  {
    if evs != [] {
      var front, ev := evs[..|evs| - 1], evs[|evs| - 1];
      ReplayOrRestore(front, from);
      assert evs == front + [ev];
      if ev.Initiate? {
        BelowSnoc(Initiations(front), ev.e, from);
      }
      if ev.Height() >= from {
        LateEvent(front, ev, from);
      } else if ev.Initiate? {
        LastInitiation(front, ev, from);
      } else {
        LastClear(front, ev, from);
      }
    }
  }

  /**
   For a run of height-ordered events and one rollback within the retention: the restored update is
   the last surviving initiation, and it is what a replay of the truncated log would hold if and
   only if no clear below `from` follows that initiation.
   */
  lemma RestoredEqualsReplayIff<T>(evs: seq<Event<T>>, from: nat)
    requires Ordered(evs) && SatSub(HighWater(evs), RETENTION) <= from
    ensures RolledBack(ApplyEvents(evs), from).current == LastOf(Below(Initiations(evs), from))
    ensures RolledBack(ApplyEvents(evs), from).current == Replay(evs, from) <==> !ClearedSince(evs, from)
  {
    EventsAnswer(evs);
    RollbackAnswers(ApplyEvents(evs), Initiations(evs), HighWater(evs), from);
    ReplayOrRestore(evs, from);
  }

  /** The restored update does differ from the replayed log when a surviving clear follows it. */
  lemma ClearedUpdateComesBack<T>(x: T)
    ensures
      var evs := [Initiate(Entry(5, x)), Clear(6)];
      && RolledBack(ApplyEvents(evs), 7).current == Some(Entry(5, x))
      && Replay(evs, 7) == None
  {
    var evs := [Initiate(Entry(5, x)), Clear(6)];
    assert evs[0].Initiate? && evs[1].Clear?;
    assert ClearsAt(evs, 1, 7);
    assert evs[..1] == [evs[0]] && evs[..1][..0] == [];
    assert HighWater(evs[..1]) == 5 && HighWater(evs) == 6;
    RestoredEqualsReplayIff(evs, 7);
    BelowSnoc([], Entry(5, x), 7);
    assert [] + [Entry(5, x)] == [Entry(5, x)];
  }

  // ---------------------------------------------------------------------------------
  // Runs with rollbacks in them
  // ---------------------------------------------------------------------------------

  datatype UpdateOp<+T> = Happens(ev: Event<T>) | Undo(from: u32)

  /** The record, the log of surviving initiations and the high-water mark. */
  datatype UpdateRun<+T> = UpdateRun(rec: Record<T>, log: seq<Entry<T>>, hw: nat)

  function UpdateStep<T>(s: UpdateRun<T>, op: UpdateOp<T>): UpdateRun<T> {
    match op
    case Happens(Initiate(e)) => UpdateRun(Pushed(s.rec, e, e.height), s.log + [e], Max(s.hw, e.height))
    case Happens(Clear(at)) => UpdateRun(Cleared(s.rec, at), s.log, Max(s.hw, at))
    case Undo(from) => UpdateRun(RolledBack(s.rec, from), Below(s.log, from), s.hw)
  }

  function UpdateExec<T>(ops: seq<UpdateOp<T>>): UpdateRun<T> {
    if ops == [] then UpdateRun(Record(None, []), [], 0)
    else UpdateStep(UpdateExec(ops[..|ops| - 1]), ops[|ops| - 1])
  }

  /** Initiations come in height order, clears at any height, and no rollback reaches below the retention. */
  ghost predicate UpdateAllowed<T>(s: UpdateRun<T>, op: UpdateOp<T>) {
    match op
    case Happens(Initiate(e)) => s.log != [] ==> LastOf(s.log).value.height <= e.height
    case Happens(Clear(_)) => true
    case Undo(from) => SatSub(s.hw, RETENTION) <= from
  }

  ghost predicate UpdatesAllowed<T>(ops: seq<UpdateOp<T>>) {
    ops == []
    || (UpdatesAllowed(ops[..|ops| - 1]) && UpdateAllowed(UpdateExec(ops[..|ops| - 1]), ops[|ops| - 1]))
  }

  /**
   Over every interleaving of initiations, clears and rollbacks the record keeps answering like the
   log of surviving initiations; right after a rollback its current update is the last of them.
   */
  lemma {:induction false} UpdatesAnswer<T>(ops: seq<UpdateOp<T>>)
    requires UpdatesAllowed(ops)
    ensures Answers(UpdateExec(ops).rec, UpdateExec(ops).log, UpdateExec(ops).hw)
    ensures ops != [] && ops[|ops| - 1].Undo? ==> UpdateExec(ops).rec.current == LastOf(UpdateExec(ops).log)
  {
    if ops != [] {
      var s := UpdateExec(ops[..|ops| - 1]);
      UpdatesAnswer(ops[..|ops| - 1]);
      match ops[|ops| - 1] {
        case Happens(Initiate(e)) => InitiateAnswers(s.rec, s.log, s.hw, e, e.height);
        case Happens(Clear(at)) => ClearAnswers(s.rec, s.log, s.hw, at);
        case Undo(from) => RollbackAnswers(s.rec, s.log, s.hw, from);
      }
    }
  }
}
