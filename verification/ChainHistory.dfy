/**
 The spends of each registry as the chain has them, what they enter into the unpruned journals, and
 the index replayed from them at startup.
 */
module ChainHistory {
  import opened Common
  import opened Registry
  import opened Versions
  import opened PeakWindow
  import opened Indexer
  import opened ListenLoop

  /** The spends walked so far, per registry, oldest first. */
  type Histories = map<Bytes32, seq<Transition>>

  /** Spends of one coin chain confirm in height order. */
  ghost predicate Ascending(ts: seq<Transition>) {
    forall i, j :: 0 <= i < j < |ts| ==> ts[i].height <= ts[j].height
  }

  /** The spends a reorganization at a height leaves alone. */
  function SpendsBelow(ts: seq<Transition>, from: nat): seq<Transition> {
    if ts == [] then []
    else
      var rest := SpendsBelow(ts[..|ts| - 1], from);
      if ts[|ts| - 1].height < from then rest + [ts[|ts| - 1]] else rest
  }

  function AllBelow(hs: Histories, from: nat): Histories {
    map r | r in hs :: SpendsBelow(hs[r], from)
  }

  lemma {:induction false} SpendsBelowAre(ts: seq<Transition>, from: nat, t: Transition)
    ensures t in SpendsBelow(ts, from) <==> t in ts && t.height < from
  {
    if ts != [] {
      var front, last := ts[..|ts| - 1], ts[|ts| - 1];
      assert ts == front + [last];
      SpendsBelowAre(front, from, t);
    }
  }

  // ---------------------------------------------------------------------------------
  // Entries of one key
  // ---------------------------------------------------------------------------------

  /** What a spend projects: created slots, or registration facts. */
  type Projection<!T> = Transition -> seq<(Key, T)>

  function SlotsOf(registry: Bytes32): Projection<StoredSlot> {
    (t: Transition) => SlotItems(registry, Created(t.logs), t.parents)
  }

  function FactsOf(registry: Bytes32): Projection<StoredRegistration> {
    (t: Transition) => Facts(registry, t.logs)
  }

  function Picked<T>(items: seq<(Key, T)>, k: Key, height: u32): seq<Entry<T>> {
    if items == [] then []
    else
      Picked(items[..|items| - 1], k, height)
        + if items[|items| - 1].0 == k then [Entry(height, items[|items| - 1].1)] else []
  }

  /** The unpruned log a key gets from a sequence of spends. */
  function Entries<T>(f: Projection<T>, ts: seq<Transition>, k: Key): seq<Entry<T>> {
    if ts == [] then [] else Entries(f, ts[..|ts| - 1], k) + Picked(f(ts[|ts| - 1]), k, ts[|ts| - 1].height)
  }

  lemma {:induction false} JournaledPicks<T>(j: Journal<T>, items: seq<(Key, T)>, height: u32, k: Key)
    ensures LogOf(Journaled(j, items, height), k) == LogOf(j, k) + Picked(items, k, height)
  {
    if items != [] {
      JournaledPicks(j, items[..|items| - 1], height, k);
    }
  }

  lemma {:induction false} EntriesConcat<T>(f: Projection<T>, a: seq<Transition>, b: seq<Transition>, k: Key)
    ensures Entries(f, a + b, k) == Entries(f, a, k) + Entries(f, b, k)
    decreases |b|
  {
    if b == [] {
      assert a + b == a;
    } else {
      assert (a + b)[..|a + b| - 1] == a + b[..|b| - 1];
      EntriesConcat(f, a, b[..|b| - 1], k);
    }
  }

  lemma OneEntry<T>(f: Projection<T>, t: Transition, k: Key)
    ensures Entries(f, [t], k) == Picked(f(t), k, t.height)
  {
    assert [t][..0] == [];
  }

  lemma {:induction false} PickedIs<T>(items: seq<(Key, T)>, k: Key, height: u32)
    ensures forall i :: 0 <= i < |Picked(items, k, height)| ==> Picked(items, k, height)[i].height == height
    ensures Picked(items, k, height) != [] <==> exists i :: 0 <= i < |items| && items[i].0 == k
  {
    if items != [] {
      PickedIs(items[..|items| - 1], k, height);
      if items[|items| - 1].0 != k {
        assert forall i :: 0 <= i < |items| && items[i].0 == k ==> items[..|items| - 1][i] == items[i];
      }
    }
  }

  lemma {:induction false} BelowAtOneHeight<T>(s: seq<Entry<T>>, height: u32, from: nat)
    requires forall i :: 0 <= i < |s| ==> s[i].height == height
    ensures Below(s, from) == if height < from then s else []
  {
    if s != [] {
      BelowAtOneHeight(s[..|s| - 1], height, from);
    }
  }

  /** Truncating a key's log is truncating the spends it comes from. */
  lemma {:induction false} EntriesBelow<T>(f: Projection<T>, ts: seq<Transition>, k: Key, from: nat)
    ensures Below(Entries(f, ts, k), from) == Entries(f, SpendsBelow(ts, from), k)
  {
    if ts != [] {
      var front, t := ts[..|ts| - 1], ts[|ts| - 1];
      EntriesBelow(f, front, k, from);
      BelowConcat(Entries(f, front, k), Picked(f(t), k, t.height), from);
      PickedBelow(f(t), k, t.height, from);
      if t.height < from {
        EntriesConcat(f, SpendsBelow(front, from), [t], k);
        OneEntry(f, t, k);
      }
    }
  }

  lemma PickedBelow<T>(items: seq<(Key, T)>, k: Key, height: u32, from: nat)
    ensures Below(Picked(items, k, height), from) == if height < from then Picked(items, k, height) else []
  {
    PickedIs(items, k, height);
    BelowAtOneHeight(Picked(items, k, height), height, from);
  }

  /** A log's heights are those of spends, so it is ordered when they are. */
  lemma {:induction false} EntriesBounded<T>(f: Projection<T>, ts: seq<Transition>, k: Key, height: nat)
    requires forall t :: t in ts ==> t.height <= height
    ensures forall i :: 0 <= i < |Entries(f, ts, k)| ==> Entries(f, ts, k)[i].height <= height
  {
    if ts != [] {
      var front, t := ts[..|ts| - 1], ts[|ts| - 1];
      assert t in ts;
      EntriesBounded(f, front, k, height);
      PickedIs(f(t), k, t.height);
    }
  }

  // ---------------------------------------------------------------------------------
  // Journals against histories
  // ---------------------------------------------------------------------------------

  function JournalAll<T>(j: Journal<T>, f: Projection<T>, ts: seq<Transition>): Journal<T>
    decreases |ts|
  {
    if ts == [] then j else JournalAll(Journaled(j, f(ts[0]), ts[0].height), f, ts[1..])
  }

  lemma {:induction false} IdealAllJournals(j: Ideal, registry: Bytes32, ts: seq<Transition>)
    ensures IdealAll(j, registry, ts)
         == Ideal(JournalAll(j.slots, SlotsOf(registry), ts), JournalAll(j.registrations, FactsOf(registry), ts))
    decreases |ts|
  {
    if ts != [] {
      IdealAllJournals(IdealTransition(j, registry, ts[0]), registry, ts[1..]);
    }
  }

  lemma {:induction false} JournalAllEntries<T>(j: Journal<T>, f: Projection<T>, ts: seq<Transition>, k: Key)
    ensures LogOf(JournalAll(j, f, ts), k) == LogOf(j, k) + Entries(f, ts, k)
    decreases |ts|
  {
    if ts != [] {
      JournalAllEntries(Journaled(j, f(ts[0]), ts[0].height), f, ts[1..], k);
      JournaledPicks(j, f(ts[0]), ts[0].height, k);
      HeadEntries(f, ts, k);
    }
  }

  lemma IdealAllEntries(j: Ideal, registry: Bytes32, ts: seq<Transition>, k: Key)
    ensures LogOf(IdealAll(j, registry, ts).slots, k) == LogOf(j.slots, k) + Entries(SlotsOf(registry), ts, k)
    ensures LogOf(IdealAll(j, registry, ts).registrations, k)
         == LogOf(j.registrations, k) + Entries(FactsOf(registry), ts, k)
  {
    IdealAllJournals(j, registry, ts);
    JournalAllEntries(j.slots, SlotsOf(registry), ts, k);
    JournalAllEntries(j.registrations, FactsOf(registry), ts, k);
  }

  lemma HeadEntries<T>(f: Projection<T>, ts: seq<Transition>, k: Key)
    requires ts != []
    ensures Entries(f, ts, k) == Picked(f(ts[0]), k, ts[0].height) + Entries(f, ts[1..], k)
  {
    assert ts == [ts[0]] + ts[1..];
    EntriesConcat(f, [ts[0]], ts[1..], k);
    OneEntry(f, ts[0], k);
  }

  /** A registry's spends enter nothing into another registry's logs. */
  lemma {:induction false} OtherRegistry(registry: Bytes32, ts: seq<Transition>, k: Key)
    requires k.registry != registry
    ensures Entries(SlotsOf(registry), ts, k) == [] && Entries(FactsOf(registry), ts, k) == []
  {
    if ts != [] {
      var t := ts[|ts| - 1];
      OtherRegistry(registry, ts[..|ts| - 1], k);
      SlotItemsKeys(registry, Created(t.logs), t.parents);
      FactsKeys(registry, t.logs);
      PickedIs(SlotsOf(registry)(t), k, t.height);
      PickedIs(FactsOf(registry)(t), k, t.height);
    }
  }

  function SlotLog(hs: Histories, k: Key): seq<Entry<StoredSlot>> {
    if k.registry in hs then Entries(SlotsOf(k.registry), hs[k.registry], k) else []
  }

  function FactLog(hs: Histories, k: Key): seq<Entry<StoredRegistration>> {
    if k.registry in hs then Entries(FactsOf(k.registry), hs[k.registry], k) else []
  }

  /** The journals hold exactly what these spends enter. */
  ghost predicate JournalsAre(j: Ideal, hs: Histories) {
    forall k: Key :: LogOf(j.slots, k) == SlotLog(hs, k) && LogOf(j.registrations, k) == FactLog(hs, k)
  }

  /** Every slot and registration the index shows is the last these spends made of its key. */
  ghost predicate Shows(x: Index, hs: Histories) {
    forall k: Key :: ShowsAt(x, hs, k)
  }

  ghost predicate ShowsAt(x: Index, hs: Histories, k: Key) {
    && Lookup(x.slots, k).current == LastOf(SlotLog(hs, k))
    && Lookup(x.registrations, k).current == LastOf(FactLog(hs, k))
  }

  lemma CurrentShows(x: Index, j: Ideal, hs: Histories)
    requires Current(x, j) && JournalsAre(j, hs)
    ensures Shows(x, hs)
  {
    forall k: Key ensures ShowsAt(x, hs, k) {
      assert LogOf(j.slots, k) == SlotLog(hs, k);
    }
  }

  lemma LogsBelow(hs: Histories, from: nat, k: Key)
    ensures Below(SlotLog(hs, k), from) == SlotLog(AllBelow(hs, from), k)
    ensures Below(FactLog(hs, k), from) == FactLog(AllBelow(hs, from), k)
  {
    if k.registry in hs {
      EntriesBelow(SlotsOf(k.registry), hs[k.registry], k, from);
      EntriesBelow(FactsOf(k.registry), hs[k.registry], k, from);
    }
  }

  /** Rolling the journals back is rolling the histories back. */
  lemma JournalsRolledBack(j: Ideal, hs: Histories, from: u32)
    requires JournalsAre(j, hs)
    ensures JournalsAre(IdealAfterRollback(j, Some(from)), AllBelow(hs, from))
  {
    forall k: Key
      ensures LogOf(JournalBelow(j.slots, from), k) == SlotLog(AllBelow(hs, from), k)
      ensures LogOf(JournalBelow(j.registrations, from), k) == FactLog(AllBelow(hs, from), k)
    {
      LogsBelow(hs, from, k);
      assert LogOf(j.slots, k) == SlotLog(hs, k);
    }
  }

  // ---------------------------------------------------------------------------------
  // Height order
  // ---------------------------------------------------------------------------------

  lemma JournaledNotAbove<T>(j: Journal<T>, registry: Bytes32, items: seq<(Key, T)>, height: u32)
    requires NotAbove(j, registry, height)
    ensures NotAbove(Journaled(j, items, height), registry, height)
  {
    forall k: Key | k.registry == registry && LogOf(Journaled(j, items, height), k) != []
      ensures LastOf(LogOf(Journaled(j, items, height), k)).value.height <= height
    {
      JournaledPicks(j, items, height, k);
      PickedIs(items, k, height);
    }
  }

  ghost predicate NothingAbove(j: Ideal, registry: Bytes32, height: u32) {
    NotAbove(j.slots, registry, height) && NotAbove(j.registrations, registry, height)
  }

  lemma NothingAboveMono(j: Ideal, registry: Bytes32, low: u32, high: u32)
    requires NothingAbove(j, registry, low) && low <= high
    ensures NothingAbove(j, registry, high)
  {
  }

  /** Ascending spends above what is journaled replay in order. */
  lemma {:induction false} AscendingIsOrdered(j: Ideal, registry: Bytes32, ts: seq<Transition>, hw: nat)
    requires Ascending(ts) && forall t :: t in ts ==> t.height <= hw
    requires ts != [] ==> NothingAbove(j, registry, ts[0].height)
    ensures HeightOrdered(j, registry, ts, hw)
    decreases |ts|
  {
    if ts != [] {
      var t, next := ts[0], IdealTransition(j, registry, ts[0]);
      JournaledNotAbove(j.slots, registry, SlotItems(registry, Created(t.logs), t.parents), t.height);
      JournaledNotAbove(j.registrations, registry, Facts(registry, t.logs), t.height);
      if |ts| > 1 {
        NothingAboveMono(next, registry, t.height, ts[1].height);
      }
      AscendingIsOrdered(next, registry, ts[1..], hw);
    }
  }

  // ---------------------------------------------------------------------------------
  // Startup
  // ---------------------------------------------------------------------------------

  const NOTHING: Index := Index(map[], map[], map[], map[])

  const NO_JOURNALS: Ideal := Ideal(map[], map[])

  /** The whole history of each registry, replayed in turn. */
  function Startup(registries: seq<Bytes32>, hs: Histories): Index
    requires forall r :: r in registries ==> r in hs
  {
    if registries == [] then NOTHING
    else
      var r := registries[|registries| - 1];
      ApplyAll(Startup(registries[..|registries| - 1], hs), r, hs[r])
  }

  function StartupJournals(registries: seq<Bytes32>, hs: Histories): Ideal
    requires forall r :: r in registries ==> r in hs
  {
    if registries == [] then NO_JOURNALS
    else
      var r := registries[|registries| - 1];
      IdealAll(StartupJournals(registries[..|registries| - 1], hs), r, hs[r])
  }

  ghost predicate Distinct(rs: seq<Bytes32>) {
    forall i, j :: 0 <= i < j < |rs| ==> rs[i] != rs[j]
  }

  /** Each registry's spends ascend and none is above a height. */
  ghost predicate Timely(hs: Histories, height: nat) {
    forall r :: r in hs ==> Ascending(hs[r]) && forall t :: t in hs[r] ==> t.height <= height
  }

  function Restricted(hs: Histories, registries: seq<Bytes32>): Histories {
    map r | r in hs && r in registries :: hs[r]
  }

  lemma NothingOf(j: Ideal, hs: Histories, registry: Bytes32, height: u32)
    requires JournalsAre(j, hs) && registry !in hs
    ensures NothingAbove(j, registry, height)
  {
    forall k: Key | k.registry == registry ensures LogOf(j.slots, k) == [] && LogOf(j.registrations, k) == [] {
      assert SlotLog(hs, k) == [] && FactLog(hs, k) == [];
    }
  }

  lemma ReplayExtends(j: Ideal, hs: Histories, registry: Bytes32, ts: seq<Transition>)
    requires JournalsAre(j, hs)
    ensures JournalsAre(IdealAll(j, registry, ts),
                        hs[registry := (if registry in hs then hs[registry] else []) + ts])
  {
    var before := if registry in hs then hs[registry] else [];
    var after := hs[registry := before + ts];
    forall k: Key
      ensures LogOf(IdealAll(j, registry, ts).slots, k) == SlotLog(after, k)
      ensures LogOf(IdealAll(j, registry, ts).registrations, k) == FactLog(after, k)
    {
      IdealAllEntries(j, registry, ts, k);
      assert LogOf(j.slots, k) == SlotLog(hs, k) && LogOf(j.registrations, k) == FactLog(hs, k);
      if k.registry == registry {
        EntriesConcat(SlotsOf(registry), before, ts, k);
        EntriesConcat(FactsOf(registry), before, ts, k);
      } else {
        OtherRegistry(registry, ts, k);
      }
    }
  }

  lemma NothingRefines(hw: nat)
    ensures IndexRefines(NOTHING, NO_JOURNALS, hw) && JournalsAre(NO_JOURNALS, map[])
  {
    forall k: Key ensures Refines(Lookup<StoredSlot>(map[], k), LogOf<StoredSlot>(map[], k), hw) {
      EmptyRefines<StoredSlot>(hw);
    }
    forall k: Key ensures Refines(Lookup<StoredRegistration>(map[], k), LogOf<StoredRegistration>(map[], k), hw) {
      EmptyRefines<StoredRegistration>(hw);
    }
  }

  /** One more registry's history can be replayed whatever the heights of the others. */
  lemma NextRegistry(x: Index, j: Ideal, seen: Histories, r: Bytes32, ts: seq<Transition>, tip: u32)
    requires IndexRefines(x, j, tip) && JournalsAre(j, seen) && r !in seen
    requires Ascending(ts) && forall t :: t in ts ==> t.height <= tip
    ensures IndexRefines(ApplyAll(x, r, ts), IdealAll(j, r, ts), tip)
    ensures JournalsAre(IdealAll(j, r, ts), seen[r := ts])
  {
    if ts != [] {
      NothingOf(j, seen, r, ts[0].height);
    }
    AscendingIsOrdered(j, r, ts, tip);
    ApplyAllRefines(x, j, r, ts, tip);
    ReplayExtends(j, seen, r, ts);
    assert [] + ts == ts;
  }

  /** Replaying whole histories in turn, whatever their heights relative to each other, refines the journals. */
  lemma {:induction false} StartupRefines(registries: seq<Bytes32>, hs: Histories, tip: u32)
    requires Distinct(registries) && (forall r :: r in registries ==> r in hs) && Timely(hs, tip)
    ensures IndexRefines(Startup(registries, hs), StartupJournals(registries, hs), tip)
    ensures JournalsAre(StartupJournals(registries, hs), Restricted(hs, registries))
  {
    if registries == [] {
      NothingRefines(tip);
      assert Restricted(hs, registries) == map[];
    } else {
      var front, r := registries[..|registries| - 1], registries[|registries| - 1];
      StartupRefines(front, hs, tip);
      assert registries == front + [r];
      NextRegistry(Startup(front, hs), StartupJournals(front, hs), Restricted(hs, front), r, hs[r], tip);
      assert Restricted(hs, front)[r := hs[r]] == Restricted(hs, registries);
    }
  }
}
