/**
 The listener's index: Handle-slot, registration and pending-update projections of registry
 transitions, and their rollback when the chain reorganizes.
 */
module Indexer {
  import opened Common
  import opened Registry
  import opened Versions
  import opened PendingUpdates
  import opened RegistrationStats

  datatype Key = Key(registry: Bytes32, handle: Bytes32)

  datatype Lineage = Lineage(parentCoin: Bytes32, parentParent: Bytes32, parentInner: Bytes32)

  datatype StoredSlot = StoredSlot(value: SlotValue, parent: Lineage)

  datatype StoredRegistration = StoredRegistration(handle: string, secret: Bytes32, kind: ActionKind, protocolFee: u64)

  type Store<T> = map<Key, Record<T>>

  function Lookup<T>(store: Store<T>, k: Key): Record<T> {
    if k in store then store[k] else Record(None, [])
  }

  /** Items of one transition pushed, in order, at its height. */
  function Committed<T>(store: Store<T>, items: seq<(Key, T)>, height: u32): Store<T> {
    if items == [] then store
    else
      var before := Committed(store, items[..|items| - 1], height);
      var (k, x) := items[|items| - 1];
      before[k := Pushed(Lookup(before, k), Entry(height, x), height)]
  }

  /** Every record rolled back; a record with nothing left is removed. */
  function StoreRolledBack<T>(store: Store<T>, from: u32): Store<T> {
    map k | k in store && RolledBack(store[k], from) != Record(None, []) :: RolledBack(store[k], from)
  }

  function SlotItems(registry: Bytes32, created: seq<SlotValue>,
                     parents: map<SlotValue, Lineage>): seq<(Key, StoredSlot)> {
    if created == [] then []
    else
      var v := created[|created| - 1];
      SlotItems(registry, created[..|created| - 1], parents)
        + [(Key(registry, v.handle), StoredSlot(v, if v in parents then parents[v] else Lineage(ZERO, ZERO, ZERO)))]
  }

  /** The registration fact of a log: only register and expire actions carry one. */
  function FactOf(registry: Bytes32, log: ActionLog): Option<(Key, StoredRegistration)> {
    match log
    case RegisterLog(_, _, _, h, _, p, _) =>
      Some((Key(registry, h.handle), StoredRegistration(p.handle, p.secret, Register, p.totalPrice)))
    case ExpireLog(_, c, p, _) =>
      Some((Key(registry, c.handle), StoredRegistration(p.handle, p.secret, Expire, p.totalPrice)))
    case _ => None
  }

  function Facts(registry: Bytes32, logs: seq<ActionLog>): seq<(Key, StoredRegistration)> {
    if logs == [] then []
    else Facts(registry, logs[..|logs| - 1]) + OptSeq(FactOf(registry, logs[|logs| - 1]))
  }

  function FactEvent(fact: (Key, StoredRegistration), height: u32): RegistrationStats.Event {
    Entry(height, EventFact(fact.1.handle, fact.1.kind))
  }

  function StatsMapAfter(stats: map<Bytes32, Stats>, registry: Bytes32, facts: seq<(Key, StoredRegistration)>,
                         height: u32)
    : map<Bytes32, Stats>
  {
    if facts == [] then stats
    else
      var before := StatsMapAfter(stats, registry, facts[..|facts| - 1], height);
      before[registry := Recorded(StatsOf(before, registry), FactEvent(facts[|facts| - 1], height))]
  }

  /** Handle whose pending update an action invalidates. */
  function Invalidated(log: ActionLog): Option<Bytes32> {
    match log
    case ExecuteUpdateLog(_, _, u, _) => Some(u.handle)
    case ExtendLog(s, _) => Some(s.handle)
    case OracleLog(s, _) => Some(s.handle)
    case ExpireLog(s, _, _, _) => Some(s.handle)
    case RefundLog(Some(s), _) => Some(s.handle)
    case _ => None
  }

  function PendingClear(store: Store<UpdateSlot>, k: Key, height: u32): Store<UpdateSlot> {
    if k !in store || store[k].current.None? then store
    else
      var r := Cleared(store[k], height);
      if r == Record(None, []) then store - {k} else store[k := r]
  }

  function PendingAfterLog(store: Store<UpdateSlot>, registry: Bytes32, log: ActionLog,
                           height: u32): Store<UpdateSlot> {
    if log.InitiateUpdateLog? then
      Committed(store, [(Key(registry, log.update.handle), log.update)], height)
    else
      match Invalidated(log)
      case None => store
      case Some(h) => PendingClear(store, Key(registry, h), height)
  }

  function PendingAfter(store: Store<UpdateSlot>, registry: Bytes32, logs: seq<ActionLog>,
                        height: u32): Store<UpdateSlot> {
    if logs == [] then store
    else PendingAfterLog(PendingAfter(store, registry, logs[..|logs| - 1], height), registry, logs[|logs| - 1], height)
  }

  function StatsOf(stats: map<Bytes32, Stats>, registry: Bytes32): Stats {
    if registry in stats then stats[registry] else Stats(0, [])
  }

  /** The whole projected index as a value. */
  datatype Index = Index(
    slots: Store<StoredSlot>, registrations: Store<StoredRegistration>,
    stats: map<Bytes32, Stats>, pending: Store<UpdateSlot>)

  /** One registry spend as the listener replays it: its height, its action logs and the parents of created slots. */
  datatype Transition = Transition(height: u32, logs: seq<ActionLog>, parents: map<SlotValue, Lineage>)

  function ApplyTransition(x: Index, registry: Bytes32, t: Transition): Index {
    Index(
      Committed(x.slots, SlotItems(registry, Created(t.logs), t.parents), t.height),
      Committed(x.registrations, Facts(registry, t.logs), t.height),
      StatsMapAfter(x.stats, registry, Facts(registry, t.logs), t.height),
      PendingAfter(x.pending, registry, t.logs, t.height))
  }

  /** Registries with statistics or with any registration record. */
  function Registries(x: Index): set<Bytes32> {
    x.stats.Keys + set k | k in x.registrations :: k.registry
  }

  function IndexRolledBack(x: Index, from: u32): Index {
    Index(
      StoreRolledBack(x.slots, from),
      StoreRolledBack(x.registrations, from),
      map r | r in Registries(x) :: StatsRolledBack(StatsOf(x.stats, r), from),
      StoreRolledBack(x.pending, from))
  }

  class SingletonIndexer {
    var handleSlots: Store<StoredSlot>
    var registrations: Store<StoredRegistration>
    var stats: map<Bytes32, Stats>
    var pendingUpdates: Store<UpdateSlot>

    function Value(): Index
      reads this
    {
      Index(handleSlots, registrations, stats, pendingUpdates)
    }

    constructor ()
      ensures handleSlots == map[] && registrations == map[] && stats == map[] && pendingUpdates == map[]
    {
      handleSlots, registrations, stats, pendingUpdates := map[], map[], map[], map[];
    }

    method ProjectHandleSlot(registry: Bytes32, value: SlotValue, parent: Lineage, height: u32)
      modifies this`handleSlots
      ensures handleSlots == old(handleSlots)[Key(registry, value.handle) :=
        Pushed(Lookup(old(handleSlots), Key(registry, value.handle)), Entry(height, StoredSlot(value, parent)), height)]
    {
      var k := Key(registry, value.handle);
      var record := new VersionedRecord<StoredSlot>(Lookup(handleSlots, k));
      record.PushReplacement(Entry(height, StoredSlot(value, parent)), height);
      handleSlots := handleSlots[k := record.Value()];
    }

    method ProjectHandleSlotsFromLogs(registry: Bytes32, height: u32, logs: seq<ActionLog>,
                                      parents: map<SlotValue, Lineage>)
      modifies this`handleSlots
      ensures handleSlots == Committed(old(handleSlots), SlotItems(registry, Created(logs), parents), height)
    {
      var created: seq<SlotValue> := [];
      for i := 0 to |logs|
        invariant created == Created(logs[..i])
        invariant handleSlots == old(handleSlots)
      {
        assert logs[..i + 1][..i] == logs[..i];
        created := created + CreatedBy(logs[i]);
      }
      assert logs[..|logs|] == logs;
      for i := 0 to |created|
        invariant handleSlots == Committed(old(handleSlots), SlotItems(registry, created[..i], parents), height)
      {
        var value := created[i];
        CommitSlot(old(handleSlots), registry, created, i, parents, height);
        ProjectHandleSlot(registry, value, if value in parents then parents[value] else Lineage(ZERO, ZERO, ZERO),
                          height);
      }
      assert created[..|created|] == created;
    }

    method ProjectRegistration(registry: Bytes32, fact: (Key, StoredRegistration), height: u32)
      modifies this`registrations, this`stats
      ensures registrations == old(registrations)[fact.0 :=
        Pushed(Lookup(old(registrations), fact.0), Entry(height, fact.1), height)]
      ensures stats == old(stats)[registry := Recorded(StatsOf(old(stats), registry), FactEvent(fact, height))]
    {
      var (k, stored) := fact;
      var record := new VersionedRecord<StoredRegistration>(Lookup(registrations, k));
      record.PushReplacement(Entry(height, stored), height);
      registrations := registrations[k := record.Value()];

      var registryStats := new RegistryStats(StatsOf(stats, registry));
      registryStats.Record(FactEvent(fact, height));
      stats := stats[registry := registryStats.Value()];
    }

    method ProjectRegistrationsFromLogs(registry: Bytes32, height: u32, logs: seq<ActionLog>)
      modifies this`registrations, this`stats
      ensures registrations == Committed(old(registrations), Facts(registry, logs), height)
      ensures stats == StatsMapAfter(old(stats), registry, Facts(registry, logs), height)
    {
      ghost var facts := Facts(registry, logs);
      for i := 0 to |logs|
        invariant registrations == Committed(old(registrations), Facts(registry, logs[..i]), height)
        invariant stats == StatsMapAfter(old(stats), registry, Facts(registry, logs[..i]), height)
      {
        assert logs[..i + 1][..i] == logs[..i];
        ghost var done := Facts(registry, logs[..i]);
        var fact := FactOf(registry, logs[i]);
        if fact.None? {
          assert Facts(registry, logs[..i + 1]) == done;
          continue;
        }
        assert Facts(registry, logs[..i + 1]) == done + [fact.value];
        CommitSnoc(old(registrations), done, fact.value, height);
        StatsSnoc(old(stats), registry, done, fact.value, height);
        ProjectRegistration(registry, fact.value, height);
      }
      assert logs[..|logs|] == logs;
    }

    method ProjectPendingUpdatesFromLogs(registry: Bytes32, height: u32, logs: seq<ActionLog>)
      modifies this`pendingUpdates
      ensures pendingUpdates == PendingAfter(old(pendingUpdates), registry, logs, height)
    {
      for i := 0 to |logs|
        invariant pendingUpdates == PendingAfter(old(pendingUpdates), registry, logs[..i], height)
      {
        assert logs[..i + 1][..i] == logs[..i];
        var log := logs[i];
        if log.InitiateUpdateLog? {
          var k := Key(registry, log.update.handle);
          var record := new VersionedRecord<UpdateSlot>(Lookup(pendingUpdates, k));
          record.PushReplacement(Entry(height, log.update), height);
          CommitSnoc(pendingUpdates, [], (k, log.update), height);
          assert [] + [(k, log.update)] == [(k, log.update)];
          pendingUpdates := pendingUpdates[k := record.Value()];
        } else {
          var handle := Invalidated(log);
          if handle.Some? {
            ClearPendingForHandle(registry, handle.value, height);
          }
        }
      }
      assert logs[..|logs|] == logs;
    }

    method ClearPendingForHandle(registry: Bytes32, handle: Bytes32, height: u32)
      modifies this`pendingUpdates
      ensures pendingUpdates == PendingClear(old(pendingUpdates), Key(registry, handle), height)
    {
      var k := Key(registry, handle);
      if k !in pendingUpdates || pendingUpdates[k].current.None? {
        return;
      }
      var record := new VersionedRecord<UpdateSlot>(pendingUpdates[k]);
      ClearPendingCurrent(record, height);
      pendingUpdates :=
        if record.current.None? && record.history == [] then pendingUpdates - {k}
        else pendingUpdates[k := record.Value()];
    }

    method ApplyRegistryTransition(registry: Bytes32, t: Transition)
      modifies this
      ensures Value() == ApplyTransition(old(Value()), registry, t)
    {
      ProjectHandleSlotsFromLogs(registry, t.height, t.logs, t.parents);
      ProjectRegistrationsFromLogs(registry, t.height, t.logs);
      ProjectPendingUpdatesFromLogs(registry, t.height, t.logs);
    }

    method Rollback(from: u32)
      modifies this
      ensures Value() == IndexRolledBack(old(Value()), from)
    {
      handleSlots := RollbackStore(handleSlots, from);
      var touched := stats.Keys + set k | k in registrations :: k.registry;
      registrations := RollbackStore(registrations, from);
      stats := RollbackStats(stats, touched, from);
      pendingUpdates := RollbackStore(pendingUpdates, from);
    }
  }

  method RollbackStats(stats: map<Bytes32, Stats>, touched: set<Bytes32>, from: u32)
    returns (after: map<Bytes32, Stats>)
    requires stats.Keys <= touched
    ensures after == map r | r in touched :: StatsRolledBack(StatsOf(stats, r), from)
  {
    after := stats;
    var todo := touched;
    while todo != {}
      invariant todo <= touched
      invariant after.Keys == stats.Keys + (touched - todo)
      invariant forall r :: r in todo ==> StatsOf(after, r) == StatsOf(stats, r)
      invariant forall r :: r in touched - todo ==> after[r] == StatsRolledBack(StatsOf(stats, r), from)
    {
      var registry :| registry in todo;
      var registryStats := new RegistryStats(StatsOf(after, registry));
      registryStats.RollbackToBefore(from);
      after := after[registry := registryStats.Value()];
      todo := todo - {registry};
    }
  }

  method RollbackStore<T>(store: Store<T>, from: u32) returns (after: Store<T>)
    ensures after == StoreRolledBack(store, from)
  {
    after := store;
    var keys := store.Keys;
    while keys != {}
      invariant keys <= store.Keys
      invariant after.Keys <= store.Keys
      invariant forall k :: k in keys ==> k in after && after[k] == store[k]
      invariant forall k :: k in store.Keys - keys ==>
        (k in after <==> RolledBack(store[k], from) != Record(None, []))
        && (k in after ==> after[k] == RolledBack(store[k], from))
    {
      var k :| k in keys;
      var record := new VersionedRecord<T>(after[k]);
      record.RollbackToBefore(from);
      if record.current.None? && record.history == [] {
        after := after - {k};
      } else {
        after := after[k := record.Value()];
      }
      keys := keys - {k};
    }
  }

  lemma CommitSnoc<T>(store: Store<T>, items: seq<(Key, T)>, item: (Key, T), height: u32)
    ensures Committed(store, items + [item], height)
         == Committed(store, items, height)[item.0 :=
              Pushed(Lookup(Committed(store, items, height), item.0), Entry(height, item.1), height)]
  {
    assert (items + [item])[..|items|] == items;
  }

  lemma CommitSlot(store: Store<StoredSlot>, registry: Bytes32, created: seq<SlotValue>, i: nat,
                   parents: map<SlotValue, Lineage>, height: u32)
    requires i < |created|
    ensures
      var v := created[i];
      var k := Key(registry, v.handle);
      var stored := StoredSlot(v, if v in parents then parents[v] else Lineage(ZERO, ZERO, ZERO));
      var before := Committed(store, SlotItems(registry, created[..i], parents), height);
      Committed(store, SlotItems(registry, created[..i + 1], parents), height)
        == before[k := Pushed(Lookup(before, k), Entry(height, stored), height)]
  {
    assert created[..i + 1][..i] == created[..i];
    var done := SlotItems(registry, created[..i], parents);
    var item := SlotItems(registry, created[..i + 1], parents)[|done|];
    CommitSnoc(store, done, item, height);
  }

  lemma StatsSnoc(stats: map<Bytes32, Stats>, registry: Bytes32, facts: seq<(Key, StoredRegistration)>,
                  fact: (Key, StoredRegistration), height: u32)
    ensures StatsMapAfter(stats, registry, facts + [fact], height)
         == StatsMapAfter(stats, registry, facts, height)[registry :=
              Recorded(StatsOf(StatsMapAfter(stats, registry, facts, height), registry), FactEvent(fact, height))]
  {
    assert (facts + [fact])[..|facts|] == facts;
  }

  // ---------------------------------------------------------------------------------
  // Stores against unpruned journals
  // ---------------------------------------------------------------------------------

  type Journal<T> = map<Key, seq<Entry<T>>>

  function LogOf<T>(j: Journal<T>, k: Key): seq<Entry<T>> {
    if k in j then j[k] else []
  }

  function Journaled<T>(j: Journal<T>, items: seq<(Key, T)>, height: u32): Journal<T> {
    if items == [] then j
    else
      var before := Journaled(j, items[..|items| - 1], height);
      var (k, x) := items[|items| - 1];
      before[k := LogOf(before, k) + [Entry(height, x)]]
  }

  function JournalBelow<T>(j: Journal<T>, from: u32): Journal<T> {
    map k | k in j :: Below(j[k], from)
  }

  /** Every record, present or absent, stands for its unpruned log. */
  ghost predicate StoreRefines<T>(store: Store<T>, j: Journal<T>, hw: nat) {
    forall k: Key :: Refines(Lookup(store, k), LogOf(j, k), hw)
  }

  /** Nothing of this registry was journaled above `height`. */
  ghost predicate NotAbove<T>(j: Journal<T>, registry: Bytes32, height: u32) {
    forall k: Key :: k.registry == registry && LogOf(j, k) != [] ==> LastOf(LogOf(j, k)).value.height <= height
  }

  lemma RefinesMono<T>(r: Record<T>, log: seq<Entry<T>>, hw: nat, hw': nat)
    requires Refines(r, log, hw) && hw <= hw'
    ensures Refines(r, log, hw')
  {
    assert Agree(Held(r), log, hw') by {
      forall h: nat | SatSub(hw', RETENTION) <= h ensures Latest(Held(r), h) == Latest(log, h) {
        assert SatSub(hw, RETENTION) <= h;
      }
    }
  }

  lemma StoreRefinesMono<T>(store: Store<T>, j: Journal<T>, hw: nat, hw': nat)
    requires StoreRefines(store, j, hw) && hw <= hw'
    ensures StoreRefines(store, j, hw')
  {
    forall k: Key ensures Refines(Lookup(store, k), LogOf(j, k), hw') {
      RefinesMono(Lookup(store, k), LogOf(j, k), hw, hw');
    }
  }

  lemma PushStoreRefines<T>(store: Store<T>, j: Journal<T>, hw: nat, k: Key, x: T, height: u32)
    requires StoreRefines(store, j, hw) && NotAbove(j, k.registry, height) && height <= hw
    ensures StoreRefines(store[k := Pushed(Lookup(store, k), Entry(height, x), height)],
                         j[k := LogOf(j, k) + [Entry(height, x)]], hw)
    ensures NotAbove(j[k := LogOf(j, k) + [Entry(height, x)]], k.registry, height)
  {
    var store' := store[k := Pushed(Lookup(store, k), Entry(height, x), height)];
    var j' := j[k := LogOf(j, k) + [Entry(height, x)]];
    forall k': Key ensures Refines(Lookup(store', k'), LogOf(j', k'), hw) {
      assert Refines(Lookup(store, k'), LogOf(j, k'), hw);
      if k' == k {
        PushRefines(Lookup(store, k), LogOf(j, k), hw, Entry(height, x), height);
      }
    }
  }

  lemma {:induction false} CommitRefines<T>(store: Store<T>, j: Journal<T>, hw: nat, registry: Bytes32,
                                            items: seq<(Key, T)>, height: u32)
    requires StoreRefines(store, j, hw) && NotAbove(j, registry, height) && height <= hw
    requires forall i :: 0 <= i < |items| ==> items[i].0.registry == registry
    ensures StoreRefines(Committed(store, items, height), Journaled(j, items, height), hw)
    ensures NotAbove(Journaled(j, items, height), registry, height)
  {
    if items != [] {
      var front := items[..|items| - 1];
      var (k, x) := items[|items| - 1];
      CommitRefines(store, j, hw, registry, front, height);
      assert items[|items| - 1].0.registry == registry;
      PushStoreRefines(Committed(store, front, height), Journaled(j, front, height), hw, k, x, height);
    }
  }

  lemma RollbackKeyRefines<T>(store: Store<T>, j: Journal<T>, hw: nat, from: u32, k: Key)
    requires StoreRefines(store, j, hw) && SatSub(hw, RETENTION) <= from
    ensures Refines(Lookup(StoreRolledBack(store, from), k), LogOf(JournalBelow(j, from), k), hw)
    ensures Lookup(StoreRolledBack(store, from), k).current == Latest(LogOf(j, k), from)
  {
    var r, log := Lookup(store, k), LogOf(j, k);
    assert Refines(r, log, hw);
    RollbackRefines(r, log, hw, from);
    assert Lookup(StoreRolledBack(store, from), k) == RolledBack(r, from);
    assert LogOf(JournalBelow(j, from), k) == Below(log, from);
  }

  lemma RollbackStoreRefines<T>(store: Store<T>, j: Journal<T>, hw: nat, from: u32)
    requires StoreRefines(store, j, hw) && SatSub(hw, RETENTION) <= from
    ensures StoreRefines(StoreRolledBack(store, from), JournalBelow(j, from), hw)
    ensures forall k: Key :: Lookup(StoreRolledBack(store, from), k).current == Latest(LogOf(j, k), from)
  {
    forall k: Key
      ensures Refines(Lookup(StoreRolledBack(store, from), k), LogOf(JournalBelow(j, from), k), hw)
      ensures Lookup(StoreRolledBack(store, from), k).current == Latest(LogOf(j, k), from)
    {
      RollbackKeyRefines(store, j, hw, from, k);
    }
  }
}
