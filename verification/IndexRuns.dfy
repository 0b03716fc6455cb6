/**
 Whole runs of the index seen from one key: pending updates against the events of their handle, and
 each registry's statistics against its own sequence of notes and rollbacks.
 */
module IndexRuns {
  import opened Common
  import opened Registry
  import opened Versions
  import opened Indexer
  import opened HandleListings
  import opened ChainHistory
  import P = PendingUpdates
  import S = RegistrationStats

  // ---------------------------------------------------------------------------------
  // Pending updates
  // ---------------------------------------------------------------------------------

  type Events = seq<P.Event<UpdateSlot>>

  /**
   What a log means for the pending update of one handle: an initiation creates it, executing it or any
   other action that spends the handle's slot clears it, registrations and delegated states leave it.
   */
  function EventOf(log: ActionLog, handle: Bytes32, height: u32): Events {
    match log
    case InitiateUpdateLog(_, _, u) => if u.handle == handle then [P.Initiate(Entry(height, u))] else []
    case ExecuteUpdateLog(_, _, u, _) => if u.handle == handle then [P.Clear(height)] else []
    case ExtendLog(s, _) => if s.handle == handle then [P.Clear(height)] else []
    case OracleLog(s, _) => if s.handle == handle then [P.Clear(height)] else []
    case ExpireLog(s, _, _, _) => if s.handle == handle then [P.Clear(height)] else []
    case RefundLog(Some(s), _) => if s.handle == handle then [P.Clear(height)] else []
    case RefundLog(None, _) => []
    case RegisterLog(_, _, _, _, _, _, _) => []
    case DelegatedStateLog => []
  }

  function EventsOf(logs: seq<ActionLog>, handle: Bytes32, height: u32): Events {
    if logs == [] then [] else EventsOf(logs[..|logs| - 1], handle, height) + EventOf(logs[|logs| - 1], handle, height)
  }

  function RunEvents(ts: seq<Transition>, handle: Bytes32): Events {
    if ts == [] then []
    else RunEvents(ts[..|ts| - 1], handle) + EventsOf(ts[|ts| - 1].logs, handle, ts[|ts| - 1].height)
  }

  function PendingOf(registry: Bytes32, ts: seq<Transition>): Store<UpdateSlot> {
    if ts == [] then map[]
    else PendingAfter(PendingOf(registry, ts[..|ts| - 1]), registry, ts[|ts| - 1].logs, ts[|ts| - 1].height)
  }

  function AtMostOne(r: Record<UpdateSlot>, evs: Events): Record<UpdateSlot> {
    if evs == [] then r else P.ApplyEvent(r, evs[0])
  }

  lemma ApplyOne(evs: Events, ev: Events)
    requires |ev| <= 1
    ensures P.ApplyEvents(evs + ev) == AtMostOne(P.ApplyEvents(evs), ev)
  {
    if ev == [] {
      assert evs + ev == evs;
    } else {
      assert (evs + ev)[..|evs|] == evs;
    }
  }

  lemma CommitOne<T>(store: Store<T>, item: (Key, T), height: u32)
    ensures Committed(store, [item], height)
         == store[item.0 := Pushed(Lookup(store, item.0), Entry(height, item.1), height)]
  {
    CommitSnoc(store, [], item, height);
    assert [] + [item] == [item];
  }

  lemma ClearTouches(store: Store<UpdateSlot>, k: Key, height: u32)
    ensures Lookup(PendingClear(store, k, height), k) == P.Cleared(Lookup(store, k), height)
  {
  }

  lemma ClearElsewhere(store: Store<UpdateSlot>, k: Key, height: u32, l: Key)
    requires k != l
    ensures Lookup(PendingClear(store, k, height), l) == Lookup(store, l)
  {
  }

  /** An action invalidates the pending update of the one handle its event clears. */
  lemma InvalidatedIsCleared(log: ActionLog, handle: Bytes32, height: u32)
    requires !log.InitiateUpdateLog?
    ensures EventOf(log, handle, height) == if Invalidated(log) == Some(handle) then [P.Clear(height)] else []
  {
  }

  /** A log touches the record of a handle only through its event. */
  lemma LogTouches(store: Store<UpdateSlot>, registry: Bytes32, log: ActionLog, height: u32, handle: Bytes32)
    ensures Lookup(PendingAfterLog(store, registry, log, height), Key(registry, handle))
         == AtMostOne(Lookup(store, Key(registry, handle)), EventOf(log, handle, height))
  {
    if log.InitiateUpdateLog? {
      CommitOne(store, (Key(registry, log.update.handle), log.update), height);
    } else {
      InvalidatedIsCleared(log, handle, height);
      if Invalidated(log).Some? {
        var k := Key(registry, Invalidated(log).value);
        if k == Key(registry, handle) {
          ClearTouches(store, k, height);
        } else {
          ClearElsewhere(store, k, height, Key(registry, handle));
        }
      }
    }
  }

  lemma LogIsEvents(store: Store<UpdateSlot>, registry: Bytes32, log: ActionLog, height: u32, handle: Bytes32,
                    evs: Events)
    requires Lookup(store, Key(registry, handle)) == P.ApplyEvents(evs)
    ensures Lookup(PendingAfterLog(store, registry, log, height), Key(registry, handle))
         == P.ApplyEvents(evs + EventOf(log, handle, height))
  {
    LogTouches(store, registry, log, height, handle);
    ApplyOne(evs, EventOf(log, handle, height));
  }

  lemma {:induction false} LogsAreEvents(store: Store<UpdateSlot>, registry: Bytes32, logs: seq<ActionLog>,
                                         height: u32, handle: Bytes32, evs: Events)
    requires Lookup(store, Key(registry, handle)) == P.ApplyEvents(evs)
    ensures Lookup(PendingAfter(store, registry, logs, height), Key(registry, handle))
         == P.ApplyEvents(evs + EventsOf(logs, handle, height))
  {
    if logs == [] {
      assert evs + [] == evs;
    } else {
      var front, log := logs[..|logs| - 1], logs[|logs| - 1];
      var done, ev := evs + EventsOf(front, handle, height), EventOf(log, handle, height);
      LogsAreEvents(store, registry, front, height, handle, evs);
      LogIsEvents(PendingAfter(store, registry, front, height), registry, log, height, handle, done);
      SameEvents(evs, EventsOf(front, handle, height), ev);
    }
  }

  lemma SameEvents(a: Events, b: Events, c: Events)
    ensures P.ApplyEvents(a + (b + c)) == P.ApplyEvents(a + b + c)
  {
    assert a + (b + c) == a + b + c;
  }

  /** After any transitions of a registry, the record of each handle is what its own events make of it. */
  lemma {:induction false} PendingIsEvents(registry: Bytes32, ts: seq<Transition>, handle: Bytes32)
    ensures Lookup(PendingOf(registry, ts), Key(registry, handle)) == P.ApplyEvents(RunEvents(ts, handle))
  {
    if ts != [] {
      var front, t := ts[..|ts| - 1], ts[|ts| - 1];
      PendingIsEvents(registry, front, handle);
      LogsAreEvents(PendingOf(registry, front), registry, t.logs, t.height, handle, RunEvents(front, handle));
    }
  }

  ghost predicate AllAt(evs: Events, height: u32) {
    forall i :: 0 <= i < |evs| ==> evs[i].Height() == height
  }

  lemma {:induction false} EventsAtHeight(logs: seq<ActionLog>, handle: Bytes32, height: u32)
    ensures AllAt(EventsOf(logs, handle, height), height)
  {
    if logs != [] {
      EventsAtHeight(logs[..|logs| - 1], handle, height);
    }
  }

  lemma {:induction false} EventsAscend(ts: seq<Transition>, handle: Bytes32)
    requires Ascending(ts)
    ensures P.Ordered(RunEvents(ts, handle))
    ensures ts != [] ==> P.HighWater(RunEvents(ts, handle)) <= ts[|ts| - 1].height
    ensures ts == [] ==> RunEvents(ts, handle) == []
  {
    if ts != [] {
      var front, t := ts[..|ts| - 1], ts[|ts| - 1];
      EventsAscend(front, handle);
      EventsAtHeight(t.logs, handle, t.height);
      if front != [] {
        assert ts[|ts| - 2].height <= t.height;
      }
      OrderedConcat(RunEvents(front, handle), EventsOf(t.logs, handle, t.height), t.height);
    }
  }

  lemma OrderedConcat(a: Events, b: Events, height: u32)
    requires P.Ordered(a) && P.HighWater(a) <= height && AllAt(b, height)
    ensures P.Ordered(a + b) && P.HighWater(a + b) <= height
  {
    P.InitiationsBounded(a);
    P.InitiationsBounded(a + b);
  }

  /**
   The index itself: rolled back within the retention, each handle's pending update is its last
   initiation below the height, and equals what replaying the truncated run would give if and only
   if no later surviving action invalidated it.
   */
  lemma IndexedPendingRestoredIff(registry: Bytes32, ts: seq<Transition>, handle: Bytes32, from: u32)
    requires Ascending(ts) && (ts != [] ==> SatSub(ts[|ts| - 1].height, RETENTION) <= from)
    ensures
      var evs := RunEvents(ts, handle);
      var restored := Lookup(StoreRolledBack(PendingOf(registry, ts), from), Key(registry, handle)).current;
      && restored == LastOf(Below(P.Initiations(evs), from))
      && (restored == P.Replay(evs, from) <==> !P.ClearedSince(evs, from))
  {
    PendingIsEvents(registry, ts, handle);
    EventsAscend(ts, handle);
    RolledBackLookup(PendingOf(registry, ts), from, Key(registry, handle));
    P.RestoredEqualsReplayIff(RunEvents(ts, handle), from);
  }

  lemma RolledBackLookup<T>(store: Store<T>, from: u32, k: Key)
    ensures Lookup(StoreRolledBack(store, from), k) == RolledBack(Lookup(store, k), from)
  {
  }

  /** What a run of the index, rollbacks included, means for the pending update of one handle. */
  function UpdateOpsOf(changes: seq<Change>, k: Key): seq<P.UpdateOp<UpdateSlot>> {
    if changes == [] then []
    else
      UpdateOpsOf(changes[..|changes| - 1], k) +
      match changes[|changes| - 1]
      case Replay(r, t) => if r == k.registry then Happening(EventsOf(t.logs, k.handle, t.height)) else []
      case Undo(from) => [P.Undo(from)]
  }

  function Happening(evs: Events): seq<P.UpdateOp<UpdateSlot>> {
    if evs == [] then [] else Happening(evs[..|evs| - 1]) + [P.Happens(evs[|evs| - 1])]
  }

  lemma UpdateSnoc(ops: seq<P.UpdateOp<UpdateSlot>>, op: P.UpdateOp<UpdateSlot>)
    ensures P.UpdateExec(ops + [op]) == P.UpdateStep(P.UpdateExec(ops), op)
  {
    assert (ops + [op])[..|ops|] == ops;
  }

  lemma {:induction false} HappeningConcat(a: Events, b: Events)
    ensures Happening(a + b) == Happening(a) + Happening(b)
    decreases |b|
  {
    if b == [] {
      assert a + b == a;
    } else {
      assert (a + b)[..|a + b| - 1] == a + b[..|b| - 1];
      HappeningConcat(a, b[..|b| - 1]);
    }
  }

  lemma LogIsOps(store: Store<UpdateSlot>, registry: Bytes32, log: ActionLog, height: u32, k: Key,
                 ops: seq<P.UpdateOp<UpdateSlot>>)
    requires Lookup(store, k) == P.UpdateExec(ops).rec && k.registry == registry
    ensures Lookup(PendingAfterLog(store, registry, log, height), k)
         == P.UpdateExec(ops + Happening(EventOf(log, k.handle, height))).rec
  {
    var ev := EventOf(log, k.handle, height);
    LogTouches(store, registry, log, height, k.handle);
    if ev == [] {
      assert ops + Happening(ev) == ops;
    } else {
      assert |ev[..0]| == 0 && Happening(ev) == [P.Happens(ev[0])];
      UpdateSnoc(ops, P.Happens(ev[0]));
    }
  }

  lemma {:induction false} LogsAreOps(store: Store<UpdateSlot>, registry: Bytes32, logs: seq<ActionLog>, height: u32,
                                      k: Key,
                                      ops: seq<P.UpdateOp<UpdateSlot>>)
    requires Lookup(store, k) == P.UpdateExec(ops).rec && k.registry == registry
    ensures Lookup(PendingAfter(store, registry, logs, height), k)
         == P.UpdateExec(ops + Happening(EventsOf(logs, k.handle, height))).rec
  {
    if logs == [] {
      assert ops + [] == ops;
    } else {
      var front, log := logs[..|logs| - 1], logs[|logs| - 1];
      var done, ev := Happening(EventsOf(front, k.handle, height)), EventOf(log, k.handle, height);
      LogsAreOps(store, registry, front, height, k, ops);
      LogIsOps(PendingAfter(store, registry, front, height), registry, log, height, k, ops + done);
      HappeningConcat(EventsOf(front, k.handle, height), ev);
      SameOps(ops, done, Happening(ev));
    }
  }

  lemma SameOps(a: seq<P.UpdateOp<UpdateSlot>>, b: seq<P.UpdateOp<UpdateSlot>>, c: seq<P.UpdateOp<UpdateSlot>>)
    ensures P.UpdateExec(a + (b + c)) == P.UpdateExec(a + b + c)
  {
    assert a + (b + c) == a + b + c;
  }

  lemma LogElsewhere(store: Store<UpdateSlot>, registry: Bytes32, log: ActionLog, height: u32, k: Key)
    requires k.registry != registry
    ensures Lookup(PendingAfterLog(store, registry, log, height), k) == Lookup(store, k)
  {
    if log.InitiateUpdateLog? {
      CommitOne(store, (Key(registry, log.update.handle), log.update), height);
    }
  }

  lemma {:induction false} LogsElsewhere(store: Store<UpdateSlot>, registry: Bytes32, logs: seq<ActionLog>,
                                         height: u32, k: Key)
    requires k.registry != registry
    ensures Lookup(PendingAfter(store, registry, logs, height), k) == Lookup(store, k)
  {
    if logs != [] {
      LogsElsewhere(store, registry, logs[..|logs| - 1], height, k);
      LogElsewhere(PendingAfter(store, registry, logs[..|logs| - 1], height), registry, logs[|logs| - 1], height, k);
    }
  }

  /** Over every run of the index, each pending record is what its own initiations, clears and rollbacks make of it. */
  lemma {:induction false} IndexedPendingIsExec(changes: seq<Change>, k: Key)
    ensures Lookup(IndexAfter(changes).pending, k) == P.UpdateExec(UpdateOpsOf(changes, k)).rec
  {
    if changes != [] {
      var front := changes[..|changes| - 1];
      var x, ops := IndexAfter(front), UpdateOpsOf(front, k);
      IndexedPendingIsExec(front, k);
      match changes[|changes| - 1] {
        case Replay(r, t) =>
          if r == k.registry {
            LogsAreOps(x.pending, r, t.logs, t.height, k, ops);
          } else {
            LogsElsewhere(x.pending, r, t.logs, t.height, k);
            assert ops + [] == ops;
          }
        case Undo(from) =>
          RolledBackLookup(x.pending, from, k);
          UpdateSnoc(ops, P.Undo(from));
      }
    }
  }

  /** So whenever a rollback has just been made, every pending update of the index is its last surviving initiation. */
  lemma IndexedPendingRestored(changes: seq<Change>, k: Key)
    requires changes != [] && changes[|changes| - 1].Undo? && P.UpdatesAllowed(UpdateOpsOf(changes, k))
    ensures Lookup(IndexAfter(changes).pending, k).current == LastOf(P.UpdateExec(UpdateOpsOf(changes, k)).log)
  {
    IndexedPendingIsExec(changes, k);
    P.UpdatesAnswer(UpdateOpsOf(changes, k));
  }

  // ---------------------------------------------------------------------------------
  // Statistics
  // ---------------------------------------------------------------------------------

  function Notes(facts: seq<(Key, StoredRegistration)>, height: u32): seq<S.StatsOp> {
    if facts == [] then [] else Notes(facts[..|facts| - 1], height) + [S.Note(FactEvent(facts[|facts| - 1], height))]
  }

  /** What a run of the index means for one registry's statistics. */
  function OpsOf(changes: seq<Change>, registry: Bytes32): seq<S.StatsOp> {
    if changes == [] then []
    else
      OpsOf(changes[..|changes| - 1], registry) +
      match changes[|changes| - 1]
      case Replay(r, t) => if r == registry then Notes(Facts(r, t.logs), t.height) else []
      case Undo(from) => [S.Undo(from)]
  }

  lemma ExecSnoc(ops: seq<S.StatsOp>, op: S.StatsOp)
    ensures S.Exec(ops + [op]) == S.Step(S.Exec(ops), op)
  {
    assert (ops + [op])[..|ops|] == ops;
  }

  lemma {:induction false} FactsAreNotes(stats: map<Bytes32, S.Stats>, registry: Bytes32,
                                         facts: seq<(Key, StoredRegistration)>,
                                         height: u32, ops: seq<S.StatsOp>, other: Bytes32)
    requires StatsOf(stats, registry) == S.Exec(ops).stats
    ensures StatsOf(StatsMapAfter(stats, registry, facts, height), registry) == S.Exec(ops + Notes(facts, height)).stats
    ensures other != registry ==> StatsOf(StatsMapAfter(stats, registry, facts, height), other) == StatsOf(stats, other)
  {
    if facts == [] {
      assert ops + [] == ops;
    } else {
      var front := facts[..|facts| - 1];
      FactsAreNotes(stats, registry, front, height, ops, other);
      var op := S.Note(FactEvent(facts[|facts| - 1], height));
      ExecSnoc(ops + Notes(front, height), op);
      assert ops + Notes(facts, height) == ops + Notes(front, height) + [op];
    }
  }

  lemma UndoneStats(x: Index, from: u32, registry: Bytes32)
    ensures StatsOf(IndexRolledBack(x, from).stats, registry) == S.StatsRolledBack(StatsOf(x.stats, registry), from)
  {
    assert S.StatsRolledBack(S.Stats(0, []), from) == S.Stats(0, []);
  }

  /** Over every run of the index, each registry's statistics are those of its own notes and the rollbacks. */
  lemma {:induction false} IndexedStatsAreExec(changes: seq<Change>, registry: Bytes32)
    ensures StatsOf(IndexAfter(changes).stats, registry) == S.Exec(OpsOf(changes, registry)).stats
  {
    if changes != [] {
      var front := changes[..|changes| - 1];
      var x := IndexAfter(front);
      IndexedStatsAreExec(front, registry);
      match changes[|changes| - 1] {
        case Replay(r, t) =>
          if r == registry {
            FactsAreNotes(x.stats, r, Facts(r, t.logs), t.height, OpsOf(front, registry), r);
          } else {
            IndexedStatsAreExec(front, r);
            FactsAreNotes(x.stats, r, Facts(r, t.logs), t.height, OpsOf(front, r), registry);
            assert OpsOf(front, registry) + [] == OpsOf(front, registry);
          }
        case Undo(from) =>
          UndoneStats(x, from, registry);
          ExecSnoc(OpsOf(front, registry), S.Undo(from));
      }
    }
  }

  /** So every reachable registry's counts are conserved. */
  lemma IndexedCountsAreConserved(changes: seq<Change>, registry: Bytes32)
    requires S.AllowedRun(OpsOf(changes, registry))
    ensures
      var stats, tally := StatsOf(IndexAfter(changes).stats, registry), S.Exec(OpsOf(changes, registry));
      && stats.total - S.Registers(stats.events) == S.Registers(tally.evicted) + tally.lost
      && |stats.events| <= S.RECENT_EVENTS_MAX
  {
    IndexedStatsAreExec(changes, registry);
    S.CountsAreConserved(OpsOf(changes, registry));
  }
}
