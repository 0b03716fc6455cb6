/**
 What the index shows after a run without rollbacks, read off the action logs kind by kind: slots,
 registrations, statistics and pending updates of one registry.
 */
module IndexMeaning {
  import opened Common
  import opened Registry
  import opened Versions
  import opened Indexer
  import opened HandleListings
  import opened SlotChain
  import P = PendingUpdates
  import S = RegistrationStats

  /** An action as a transition carries it: its height and the parents of the slots created there. */
  datatype Logged = Logged(log: ActionLog, height: u32, parents: map<SlotValue, Lineage>)

  function LogsIn(t: Transition): seq<Logged> {
    seq(|t.logs|, i requires 0 <= i < |t.logs| => Logged(t.logs[i], t.height, t.parents))
  }

  /** The actions of one registry over a run, in order. */
  function LogsOf(changes: seq<Change>, registry: Bytes32): seq<Logged> {
    if changes == [] then []
    else
      LogsOf(changes[..|changes| - 1], registry) +
      match changes[|changes| - 1]
      case Replay(r, t) => if r == registry then LogsIn(t) else []
      case Undo(_) => []
  }

  ghost predicate OnlyReplays(changes: seq<Change>) {
    forall i :: 0 <= i < |changes| ==> changes[i].Replay?
  }

  /** A quantity carried through actions in order. */
  function Carried<T>(x: T, step: (T, Logged) -> T, ls: seq<Logged>): T {
    if ls == [] then x else step(Carried(x, step, ls[..|ls| - 1]), ls[|ls| - 1])
  }

  lemma {:induction false} CarriedConcat<T>(x: T, step: (T, Logged) -> T, a: seq<Logged>, b: seq<Logged>)
    ensures Carried(x, step, a + b) == Carried(Carried(x, step, a), step, b)
    decreases |b|
  {
    if b == [] {
      assert a + b == a;
    } else {
      assert (a + b)[..|a + b| - 1] == a + b[..|b| - 1];
      CarriedConcat(x, step, a, b[..|b| - 1]);
    }
  }

  lemma LogsInFront(t: Transition)
    requires t.logs != []
    ensures
      var front := t.(logs := t.logs[..|t.logs| - 1]);
      LogsIn(t) == LogsIn(front) + [Logged(t.logs[|t.logs| - 1], t.height, t.parents)]
  {
  }

  lemma CarriedLast<T>(x: T, step: (T, Logged) -> T, t: Transition)
    requires t.logs != []
    ensures
      var front := t.(logs := t.logs[..|t.logs| - 1]);
      var last := Logged(t.logs[|t.logs| - 1], t.height, t.parents);
      Carried(x, step, LogsIn(t)) == step(Carried(x, step, LogsIn(front)), last)
  {
    LogsInFront(t);
    var front := t.(logs := t.logs[..|t.logs| - 1]);
    assert LogsIn(t)[..|LogsIn(t)| - 1] == LogsIn(front);
  }

  // ---------------------------------------------------------------------------------
  // Pending updates
  // ---------------------------------------------------------------------------------

  type Pending = Option<Entry<UpdateSlot>>

  /**
   An initiation shows its update; executing an update, and any other action that spends the handle's
   slot without creating an update, shows none.
   */
  function PendingStep(handle: Bytes32): (Pending, Logged) -> Pending {
    (c: Pending, l: Logged) =>
      match l.log
      case InitiateUpdateLog(_, _, u) => if u.handle == handle then Some(Entry(l.height, u)) else c
      case ExecuteUpdateLog(_, _, u, _) => if u.handle == handle then None else c
      case ExtendLog(s, _) => if s.handle == handle then None else c
      case OracleLog(s, _) => if s.handle == handle then None else c
      case ExpireLog(s, _, _, _) => if s.handle == handle then None else c
      case RefundLog(Some(s), _) => if s.handle == handle then None else c
      case RefundLog(None, _) => c
      case RegisterLog(_, _, _, _, _, _, _) => c
      case DelegatedStateLog => c
  }

  lemma InitiateShows(store: Store<UpdateSlot>, item: (Key, UpdateSlot), height: u32, k: Key)
    ensures Lookup(Committed(store, [item], height), k).current ==
      if item.0 == k then Some(Entry(height, item.1)) else Lookup(store, k).current
  {
    CommitSnoc(store, [], item, height);
    assert [] + [item] == [item];
  }

  lemma ClearShows(store: Store<UpdateSlot>, cleared: Key, height: u32, k: Key)
    ensures Lookup(PendingClear(store, cleared, height), k).current ==
      if cleared == k then None else Lookup(store, k).current
  {
  }

  lemma PendingLogStep(store: Store<UpdateSlot>, registry: Bytes32, l: Logged, handle: Bytes32)
    ensures Lookup(PendingAfterLog(store, registry, l.log, l.height), Key(registry, handle)).current
         == PendingStep(handle)(Lookup(store, Key(registry, handle)).current, l)
  {
    var k := Key(registry, handle);
    if l.log.InitiateUpdateLog? {
      InitiateShows(store, (Key(registry, l.log.update.handle), l.log.update), l.height, k);
    } else if Invalidated(l.log).Some? {
      ClearShows(store, Key(registry, Invalidated(l.log).value), l.height, k);
    }
  }

  lemma {:induction false} PendingTransition(store: Store<UpdateSlot>, registry: Bytes32, t: Transition,
                                             handle: Bytes32)
    ensures Lookup(PendingAfter(store, registry, t.logs, t.height), Key(registry, handle)).current
         == Carried(Lookup(store, Key(registry, handle)).current, PendingStep(handle), LogsIn(t))
    decreases |t.logs|
  {
    if t.logs != [] {
      var front, log := t.(logs := t.logs[..|t.logs| - 1]), t.logs[|t.logs| - 1];
      PendingTransition(store, registry, front, handle);
      var l := Logged(log, t.height, t.parents);
      PendingLogStep(PendingAfter(store, registry, front.logs, t.height), registry, l, handle);
      CarriedLast(Lookup(store, Key(registry, handle)).current, PendingStep(handle), t);
    }
  }

  lemma {:induction false} PendingElsewhere(store: Store<UpdateSlot>, registry: Bytes32, logs: seq<ActionLog>,
                                            height: u32, k: Key)
    requires k.registry != registry
    ensures Lookup(PendingAfter(store, registry, logs, height), k).current == Lookup(store, k).current
  {
    if logs != [] {
      var before, log := PendingAfter(store, registry, logs[..|logs| - 1], height), logs[|logs| - 1];
      PendingElsewhere(store, registry, logs[..|logs| - 1], height, k);
      if log.InitiateUpdateLog? {
        InitiateShows(before, (Key(registry, log.update.handle), log.update), height, k);
      } else if Invalidated(log).Some? {
        ClearShows(before, Key(registry, Invalidated(log).value), height, k);
      }
    }
  }

  /** After any run without rollbacks the pending update of a handle is what its actions leave, in order. */
  lemma {:induction false} PendingIsCarried(changes: seq<Change>, k: Key)
    requires OnlyReplays(changes)
    ensures Lookup(IndexAfter(changes).pending, k).current
         == Carried(None, PendingStep(k.handle), LogsOf(changes, k.registry))
  {
    if changes != [] {
      var front := changes[..|changes| - 1];
      var x, c := IndexAfter(front), changes[|changes| - 1];
      PendingIsCarried(front, k);
      if c.registry == k.registry {
        PendingTransition(x.pending, c.registry, c.t, k.handle);
        CarriedConcat(None, PendingStep(k.handle), LogsOf(front, k.registry), LogsIn(c.t));
      } else {
        PendingElsewhere(x.pending, c.registry, c.t.logs, c.t.height, k);
        assert LogsOf(front, k.registry) + [] == LogsOf(front, k.registry);
      }
    }
  }

  /** An action that concerns the pending update of a handle. */
  predicate Initiates(log: ActionLog, handle: Bytes32) {
    log.InitiateUpdateLog? && log.update.handle == handle
  }

  predicate Ends(log: ActionLog, handle: Bytes32) {
    || (log.ExecuteUpdateLog? && log.spentUpdate.handle == handle)
    || (log.ExtendLog? && log.spent.handle == handle)
    || (log.OracleLog? && log.spent.handle == handle)
    || (log.ExpireLog? && log.spent.handle == handle)
    || (log.RefundLog? && log.spentSlot.Some? && log.spentSlot.value.handle == handle)
  }

  /** Action `i` initiates the update, and no later one of the handle concerns it. */
  predicate LastInitiates(ls: seq<Logged>, i: int, handle: Bytes32) {
    && 0 <= i < |ls| && Initiates(ls[i].log, handle)
    && forall j :: i < j < |ls| ==> !Initiates(ls[j].log, handle) && !Ends(ls[j].log, handle)
  }

  lemma {:induction false} CarriedPendingIff(ls: seq<Logged>, handle: Bytes32, e: Entry<UpdateSlot>)
    ensures Carried(None, PendingStep(handle), ls) == Some(e)
       <==> exists i :: LastInitiates(ls, i, handle) && e == Entry(ls[i].height, ls[i].log.update)
  {
    if ls != [] {
      var front, l := ls[..|ls| - 1], ls[|ls| - 1];
      CarriedPendingIff(front, handle, e);
      if Initiates(l.log, handle) {
        assert LastInitiates(ls, |ls| - 1, handle);
      } else if !Ends(l.log, handle) {
        forall i ensures LastInitiates(ls, i, handle) <==> LastInitiates(front, i, handle) {
          LastInitiatesSnoc(front, l, i, handle);
          assert ls == front + [l];
        }
      }
    }
  }

  lemma LastInitiatesSnoc(front: seq<Logged>, l: Logged, i: int, handle: Bytes32)
    requires !Initiates(l.log, handle) && !Ends(l.log, handle)
    ensures LastInitiates(front + [l], i, handle) <==> LastInitiates(front, i, handle)
  {
    var ls := front + [l];
    assert forall j :: 0 <= j < |front| ==> ls[j] == front[j];
    assert ls[|front|] == l;
  }

  /** So a pending update is shown if and only if its initiation is the last action of the handle that concerns it. */
  lemma PendingShownIff(changes: seq<Change>, k: Key, e: Entry<UpdateSlot>)
    requires OnlyReplays(changes)
    ensures
      var ls := LogsOf(changes, k.registry);
      (Lookup(IndexAfter(changes).pending, k).current == Some(e)) <==>
      exists i :: LastInitiates(ls, i, k.handle) && e == Entry(ls[i].height, ls[i].log.update)
  {
    PendingIsCarried(changes, k);
    CarriedPendingIff(LogsOf(changes, k.registry), k.handle, e);
  }

  // ---------------------------------------------------------------------------------
  // Registrations
  // ---------------------------------------------------------------------------------

  type Registered = Option<Entry<StoredRegistration>>

  /** A register or expire action shows its purchase at the handle it creates; no other changes a registration. */
  function RegistrationStep(handle: Bytes32): (Registered, Logged) -> Registered {
    (c: Registered, l: Logged) =>
      match l.log
      case RegisterLog(_, _, _, created, _, p, _) =>
        if created.handle == handle
        then Some(Entry(l.height, StoredRegistration(p.handle, p.secret, S.Register, p.totalPrice))) else c
      case ExpireLog(_, created, p, _) =>
        if created.handle == handle
        then Some(Entry(l.height, StoredRegistration(p.handle, p.secret, S.Expire, p.totalPrice))) else c
      case _ => c
  }

  lemma FactShows(store: Store<StoredRegistration>, registry: Bytes32, facts: seq<(Key, StoredRegistration)>,
                  l: Logged, handle: Bytes32)
    ensures
      var after := Committed(store, facts + OptSeq(FactOf(registry, l.log)), l.height);
      Lookup(after, Key(registry, handle)).current
        == RegistrationStep(handle)(Lookup(Committed(store, facts, l.height), Key(registry, handle)).current, l)
  {
    var fact := FactOf(registry, l.log);
    if fact.None? {
      assert facts + OptSeq(fact) == facts;
    } else {
      CommitSnoc(store, facts, fact.value, l.height);
    }
  }

  lemma {:induction false} RegistrationTransition(store: Store<StoredRegistration>, registry: Bytes32, t: Transition,
                                                  handle: Bytes32)
    ensures Lookup(Committed(store, Facts(registry, t.logs), t.height), Key(registry, handle)).current
         == Carried(Lookup(store, Key(registry, handle)).current, RegistrationStep(handle), LogsIn(t))
    decreases |t.logs|
  {
    if t.logs != [] {
      var front, log := t.(logs := t.logs[..|t.logs| - 1]), t.logs[|t.logs| - 1];
      RegistrationTransition(store, registry, front, handle);
      FactShows(store, registry, Facts(registry, front.logs), Logged(log, t.height, t.parents), handle);
      CarriedLast(Lookup(store, Key(registry, handle)).current, RegistrationStep(handle), t);
    }
  }

  lemma {:induction false} CommittedElsewhere<T>(store: Store<T>, items: seq<(Key, T)>, height: u32, k: Key)
    requires forall i :: 0 <= i < |items| ==> items[i].0 != k
    ensures Lookup(Committed(store, items, height), k) == Lookup(store, k)
  {
    if items != [] {
      CommittedElsewhere(store, items[..|items| - 1], height, k);
      assert items[|items| - 1].0 != k;
    }
  }

  lemma {:induction false} FactsElsewhere(registry: Bytes32, logs: seq<ActionLog>, k: Key)
    requires k.registry != registry
    ensures forall i :: 0 <= i < |Facts(registry, logs)| ==> Facts(registry, logs)[i].0 != k
  {
    if logs != [] {
      FactsElsewhere(registry, logs[..|logs| - 1], k);
    }
  }

  /** After any run without rollbacks a handle's registration is the last register or expire action's. */
  lemma {:induction false} RegistrationIsCarried(changes: seq<Change>, k: Key)
    requires OnlyReplays(changes)
    ensures Lookup(IndexAfter(changes).registrations, k).current
         == Carried(None, RegistrationStep(k.handle), LogsOf(changes, k.registry))
  {
    if changes != [] {
      var front := changes[..|changes| - 1];
      var x, c := IndexAfter(front), changes[|changes| - 1];
      RegistrationIsCarried(front, k);
      if c.registry == k.registry {
        RegistrationTransition(x.registrations, c.registry, c.t, k.handle);
        CarriedConcat(None, RegistrationStep(k.handle), LogsOf(front, k.registry), LogsIn(c.t));
      } else {
        FactsElsewhere(c.registry, c.t.logs, k);
        CommittedElsewhere(x.registrations, Facts(c.registry, c.t.logs), c.t.height, k);
        assert LogsOf(front, k.registry) + [] == LogsOf(front, k.registry);
      }
    }
  }

  // ---------------------------------------------------------------------------------
  // Statistics
  // ---------------------------------------------------------------------------------

  function RegisterLogs(ls: seq<Logged>): nat {
    if ls == [] then 0 else RegisterLogs(ls[..|ls| - 1]) + if ls[|ls| - 1].log.RegisterLog? then 1 else 0
  }

  /** The feed: every register and expire action with its handle and kind, oldest first. */
  function Feed(ls: seq<Logged>): seq<S.Event> {
    if ls == [] then []
    else
      var l := ls[|ls| - 1];
      Feed(ls[..|ls| - 1]) +
      match l.log
      case RegisterLog(_, _, _, _, _, p, _) => [Entry(l.height, S.EventFact(p.handle, S.Register))]
      case ExpireLog(_, _, p, _) => [Entry(l.height, S.EventFact(p.handle, S.Expire))]
      case _ => []
  }

  /** The newest fifty of a feed. */
  function Newest(feed: seq<S.Event>): seq<S.Event> {
    if |feed| > 50 then feed[|feed| - 50..] else feed
  }

  function CappedCount(n: nat): nat {
    if n > MAX_U64 then MAX_U64 else n
  }

  /** Statistics of a run's actions: registrations counted up to the limit, and the newest fifty of the feed. */
  predicate StatsAre(s: S.Stats, ls: seq<Logged>) {
    s.total == CappedCount(RegisterLogs(ls)) && s.events == Newest(Feed(ls))
  }

  lemma NewestSnoc(feed: seq<S.Event>, ev: S.Event)
    ensures
      var all := Newest(feed) + [ev];
      Newest(feed + [ev]) == if |all| > 50 then all[1..] else all
  {
  }

  lemma FactCounts(s: S.Stats, registry: Bytes32, ls: seq<Logged>, l: Logged)
    requires StatsAre(s, ls)
    ensures FactOf(registry, l.log).None? ==> StatsAre(s, ls + [l])
    ensures FactOf(registry, l.log).Some? ==>
      StatsAre(S.Recorded(s, FactEvent(FactOf(registry, l.log).value, l.height)), ls + [l])
  {
    assert (ls + [l])[..|ls|] == ls;
    var fact := FactOf(registry, l.log);
    if fact.Some? {
      NewestSnoc(Feed(ls), FactEvent(fact.value, l.height));
    } else {
      assert Feed(ls) + [] == Feed(ls);
    }
  }

  lemma {:induction false} StatsTransition(stats: map<Bytes32, S.Stats>, registry: Bytes32, t: Transition,
                                           ls: seq<Logged>)
    requires StatsAre(StatsOf(stats, registry), ls)
    ensures
      var after := StatsMapAfter(stats, registry, Facts(registry, t.logs), t.height);
      StatsAre(StatsOf(after, registry), ls + LogsIn(t))
    decreases |t.logs|
  {
    if t.logs == [] {
      assert ls + LogsIn(t) == ls;
    } else {
      var front, log := t.(logs := t.logs[..|t.logs| - 1]), t.logs[|t.logs| - 1];
      var l := Logged(log, t.height, t.parents);
      StatsTransition(stats, registry, front, ls);
      LogsInFront(t);
      assert ls + LogsIn(t) == ls + LogsIn(front) + [l];
      StatsLog(stats, registry, Facts(registry, front.logs), ls + LogsIn(front), l);
    }
  }

  lemma StatsLog(stats: map<Bytes32, S.Stats>, registry: Bytes32, facts: seq<(Key, StoredRegistration)>,
                 ls: seq<Logged>, l: Logged)
    requires StatsAre(StatsOf(StatsMapAfter(stats, registry, facts, l.height), registry), ls)
    ensures
      var after := StatsMapAfter(stats, registry, facts + OptSeq(FactOf(registry, l.log)), l.height);
      StatsAre(StatsOf(after, registry), ls + [l])
  {
    var fact := FactOf(registry, l.log);
    FactCounts(StatsOf(StatsMapAfter(stats, registry, facts, l.height), registry), registry, ls, l);
    if fact.Some? {
      StatsSnoc(stats, registry, facts, fact.value, l.height);
    } else {
      assert facts + OptSeq(fact) == facts;
    }
  }

  lemma {:induction false} StatsElsewhere(stats: map<Bytes32, S.Stats>, registry: Bytes32,
                                          facts: seq<(Key, StoredRegistration)>, height: u32, other: Bytes32)
    requires other != registry
    ensures StatsOf(StatsMapAfter(stats, registry, facts, height), other) == StatsOf(stats, other)
  {
    if facts != [] {
      StatsElsewhere(stats, registry, facts[..|facts| - 1], height, other);
    }
  }

  /** Without rollbacks a registry's total counts its register actions, and its feed is the newest fifty. */
  lemma {:induction false} StatsCountLogs(changes: seq<Change>, registry: Bytes32)
    requires OnlyReplays(changes)
    ensures StatsAre(StatsOf(IndexAfter(changes).stats, registry), LogsOf(changes, registry))
  {
    if changes != [] {
      var front := changes[..|changes| - 1];
      var x, c := IndexAfter(front), changes[|changes| - 1];
      StatsCountLogs(front, registry);
      if c.registry == registry {
        StatsTransition(x.stats, registry, c.t, LogsOf(front, registry));
      } else {
        StatsElsewhere(x.stats, c.registry, Facts(c.registry, c.t.logs), c.t.height, registry);
        assert LogsOf(front, registry) + [] == LogsOf(front, registry);
      }
    }
  }

  // ---------------------------------------------------------------------------------
  // Handle slots
  // ---------------------------------------------------------------------------------

  type Slotted = Option<Entry<StoredSlot>>

  /** A created value shows at its own handle, under the coin the transition gives for it or none. */
  function Showing(c: Slotted, v: SlotValue, l: Logged, handle: Bytes32): Slotted {
    if v.handle != handle then c
    else if v in l.parents then Some(Entry(l.height, StoredSlot(v, l.parents[v])))
    else Some(Entry(l.height, StoredSlot(v, Lineage(ZERO, ZERO, ZERO))))
  }

  function SlotStep(handle: Bytes32): (Slotted, Logged) -> Slotted {
    (c: Slotted, l: Logged) =>
      match l.log
      case RegisterLog(_, _, left, created, right, _, _) =>
        Showing(Showing(Showing(c, left, l, handle), created, l, handle), right, l, handle)
      case ExpireLog(_, v, _, _) => Showing(c, v, l, handle)
      case ExtendLog(_, v) => Showing(c, v, l, handle)
      case OracleLog(_, v) => Showing(c, v, l, handle)
      case InitiateUpdateLog(_, v, _) => Showing(c, v, l, handle)
      case ExecuteUpdateLog(_, v, _, _) => Showing(c, v, l, handle)
      case RefundLog(_, Some(v)) => Showing(c, v, l, handle)
      case RefundLog(_, None) => c
      case DelegatedStateLog => c
  }

  function AllShowing(c: Slotted, vs: seq<SlotValue>, l: Logged, handle: Bytes32): Slotted {
    if vs == [] then c else Showing(AllShowing(c, vs[..|vs| - 1], l, handle), vs[|vs| - 1], l, handle)
  }

  lemma OneShowing(c: Slotted, v: SlotValue, l: Logged, handle: Bytes32)
    ensures AllShowing(c, [v], l, handle) == Showing(c, v, l, handle)
  {
    assert |[v][..0]| == 0;
  }

  lemma ThreeShowing(c: Slotted, u: SlotValue, v: SlotValue, w: SlotValue, l: Logged, handle: Bytes32)
    ensures AllShowing(c, [u, v, w], l, handle)
         == Showing(Showing(Showing(c, u, l, handle), v, l, handle), w, l, handle)
  {
    assert [u, v, w][..2] == [u, v] && [u, v][..1] == [u];
    OneShowing(c, u, l, handle);
    assert AllShowing(c, [u, v], l, handle) == Showing(AllShowing(c, [u], l, handle), v, l, handle);
  }

  lemma CreatedShow(c: Slotted, l: Logged, handle: Bytes32)
    ensures AllShowing(c, CreatedBy(l.log), l, handle) == SlotStep(handle)(c, l)
  {
    match l.log {
      case RegisterLog(_, _, left, created, right, _, _) => ThreeShowing(c, left, created, right, l, handle);
      case ExpireLog(_, v, _, _) => OneShowing(c, v, l, handle);
      case ExtendLog(_, v) => OneShowing(c, v, l, handle);
      case OracleLog(_, v) => OneShowing(c, v, l, handle);
      case InitiateUpdateLog(_, v, _) => OneShowing(c, v, l, handle);
      case ExecuteUpdateLog(_, v, _, _) => OneShowing(c, v, l, handle);
      case RefundLog(_, Some(v)) => OneShowing(c, v, l, handle);
      case _ =>
    }
  }

  /** What committing created values leaves at one handle. */
  function SlotShown(store: Store<StoredSlot>, k: Key, vs: seq<SlotValue>, l: Logged): Slotted {
    Lookup(Committed(store, SlotItems(k.registry, vs, l.parents), l.height), k).current
  }

  lemma CommitShows<T>(store: Store<T>, items: seq<(Key, T)>, item: (Key, T), height: u32, k: Key)
    ensures Lookup(Committed(store, items + [item], height), k).current ==
      if item.0 == k then Some(Entry(height, item.1)) else Lookup(Committed(store, items, height), k).current
  {
    CommitSnoc(store, items, item, height);
  }

  function ItemOf(registry: Bytes32, v: SlotValue, parents: map<SlotValue, Lineage>): (Key, StoredSlot) {
    (Key(registry, v.handle), StoredSlot(v, if v in parents then parents[v] else Lineage(ZERO, ZERO, ZERO)))
  }

  lemma ItemsSnoc(registry: Bytes32, vs: seq<SlotValue>, v: SlotValue, parents: map<SlotValue, Lineage>)
    ensures SlotItems(registry, vs + [v], parents) == SlotItems(registry, vs, parents) + [ItemOf(registry, v, parents)]
  {
    assert (vs + [v])[..|vs|] == vs;
  }

  lemma SlotShownSnoc(store: Store<StoredSlot>, k: Key, vs: seq<SlotValue>, v: SlotValue, l: Logged)
    ensures SlotShown(store, k, vs + [v], l) == Showing(SlotShown(store, k, vs, l), v, l, k.handle)
  {
    ItemsSnoc(k.registry, vs, v, l.parents);
    CommitShows(store, SlotItems(k.registry, vs, l.parents), ItemOf(k.registry, v, l.parents), l.height, k);
  }

  lemma {:induction false} CommittedShow(store: Store<StoredSlot>, k: Key, before: seq<SlotValue>, vs: seq<SlotValue>,
                                         l: Logged)
    ensures SlotShown(store, k, before + vs, l) == AllShowing(SlotShown(store, k, before, l), vs, l, k.handle)
    decreases |vs|
  {
    if vs == [] {
      assert before + vs == before;
    } else {
      var front, v := vs[..|vs| - 1], vs[|vs| - 1];
      assert before + vs == before + front + [v];
      CommittedShow(store, k, before, front, l);
      SlotShownSnoc(store, k, before + front, v, l);
    }
  }

  lemma {:induction false} SlotTransition(store: Store<StoredSlot>, registry: Bytes32, t: Transition, handle: Bytes32)
    ensures
      var after := Committed(store, SlotItems(registry, Created(t.logs), t.parents), t.height);
      Lookup(after, Key(registry, handle)).current
        == Carried(Lookup(store, Key(registry, handle)).current, SlotStep(handle), LogsIn(t))
    decreases |t.logs|
  {
    if t.logs != [] {
      var front, log := t.(logs := t.logs[..|t.logs| - 1]), t.logs[|t.logs| - 1];
      var l := Logged(log, t.height, t.parents);
      SlotTransition(store, registry, front, handle);
      CommittedShow(store, Key(registry, handle), Created(front.logs), CreatedBy(log), l);
      CreatedShow(SlotShown(store, Key(registry, handle), Created(front.logs), l), l, handle);
      CarriedLast(Lookup(store, Key(registry, handle)).current, SlotStep(handle), t);
    }
  }

  lemma {:induction false} SlotsElsewhere(registry: Bytes32, created: seq<SlotValue>, parents: map<SlotValue, Lineage>,
                                          k: Key)
    requires k.registry != registry
    ensures forall i :: 0 <= i < |SlotItems(registry, created, parents)| ==>
      SlotItems(registry, created, parents)[i].0 != k
  {
    if created != [] {
      SlotsElsewhere(registry, created[..|created| - 1], parents, k);
    }
  }

  /** After any run without rollbacks a handle's slot is the last value created for it, with its coin and height. */
  lemma {:induction false} SlotIsCarried(changes: seq<Change>, k: Key)
    requires OnlyReplays(changes)
    ensures Lookup(IndexAfter(changes).slots, k).current
         == Carried(None, SlotStep(k.handle), LogsOf(changes, k.registry))
  {
    if changes != [] {
      var front := changes[..|changes| - 1];
      var x, c := IndexAfter(front), changes[|changes| - 1];
      SlotIsCarried(front, k);
      if c.registry == k.registry {
        SlotTransition(x.slots, c.registry, c.t, k.handle);
        CarriedConcat(None, SlotStep(k.handle), LogsOf(front, k.registry), LogsIn(c.t));
      } else {
        SlotsElsewhere(c.registry, Created(c.t.logs), c.t.parents, k);
        CommittedElsewhere(x.slots, SlotItems(c.registry, Created(c.t.logs), c.t.parents), c.t.height, k);
        assert LogsOf(front, k.registry) + [] == LogsOf(front, k.registry);
      }
    }
  }

  /** The live slots after a run of a registry's actions. */
  function LiveAfter(live: Live, ls: seq<Logged>): Live {
    if ls == [] then live else AfterLog(LiveAfter(live, ls[..|ls| - 1]), ls[|ls| - 1].log)
  }

  lemma {:induction false} ShowingIsLive(c: Slotted, live: Live, vs: seq<SlotValue>, l: Logged, handle: Bytes32)
    requires c.Some? ==> handle in live && live[handle] == c.value.state.value
    ensures
      var after := AllShowing(c, vs, l, handle);
      after.Some? ==> handle in PutAll(live, vs) && PutAll(live, vs)[handle] == after.value.state.value
  {
    if vs != [] {
      ShowingIsLive(c, live, vs[..|vs| - 1], l, handle);
    }
  }

  lemma {:induction false} CarriedSlotIsLive(live: Live, ls: seq<Logged>, handle: Bytes32)
    ensures
      var shown := Carried(None, SlotStep(handle), ls);
      shown.Some? ==> handle in LiveAfter(live, ls) && LiveAfter(live, ls)[handle] == shown.value.state.value
  {
    if ls != [] {
      var front, l := ls[..|ls| - 1], ls[|ls| - 1];
      CarriedSlotIsLive(live, front, handle);
      CreatedShow(Carried(None, SlotStep(handle), front), l, handle);
      ShowingIsLive(Carried(None, SlotStep(handle), front), LiveAfter(live, front), CreatedBy(l.log), l, handle);
    }
  }

  /** So every slot the index shows is the live one of its handle. */
  lemma ShownSlotIsLive(live: Live, changes: seq<Change>, k: Key)
    requires OnlyReplays(changes) && Lookup(IndexAfter(changes).slots, k).current.Some?
    ensures
      var after := LiveAfter(live, LogsOf(changes, k.registry));
      k.handle in after && after[k.handle] == Lookup(IndexAfter(changes).slots, k).current.value.state.value
  {
    SlotIsCarried(changes, k);
    CarriedSlotIsLive(live, LogsOf(changes, k.registry), k.handle);
  }
}
