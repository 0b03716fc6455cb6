/**
 The listener's peak loop as a whole: reorganization detection, index rollback, replay of spent
 registry coins and block following, with the safety of every run.
 */
module ListenLoop {
  import opened Common
  import opened Registry
  import opened Versions
  import opened PeakWindow
  import opened Indexer

  /** A followed registry: its launcher and its latest coin. */
  datatype Tip = Tip(launcher: Bytes32, coin: Bytes32)

  datatype CoinRecord = CoinRecord(coin: Bytes32, spent: bool)

  /** What syncing one registry returns: its new latest coin and the spends walked to reach it. */
  datatype Batch = Batch(coin: Bytes32, transitions: seq<Transition>)

  datatype SyncError = DuplicateRecord | MissingRecord | UnexpectedRecord | SyncFailed

  datatype Sync = Sync(index: Index, tips: seq<Tip>, error: Option<SyncError>)

  // ---------------------------------------------------------------------------------
  // Replaying spent registry coins
  // ---------------------------------------------------------------------------------

  function ApplyAll(x: Index, registry: Bytes32, ts: seq<Transition>): Index
    decreases |ts|
  {
    if ts == [] then x else ApplyAll(ApplyTransition(x, registry, ts[0]), registry, ts[1..])
  }

  function CoinsOf(records: seq<CoinRecord>): set<Bytes32> {
    set r | r in records :: r.coin
  }

  function TipCoins(tips: seq<Tip>): set<Bytes32> {
    set t | t in tips :: t.coin
  }

  ghost predicate DistinctRecords(records: seq<CoinRecord>) {
    forall i, j :: 0 <= i < j < |records| ==> records[i].coin != records[j].coin
  }

  ghost predicate DistinctTips(tips: seq<Tip>) {
    forall i, j :: 0 <= i < j < |tips| ==> tips[i].coin != tips[j].coin
  }

  function SpentCoins(records: seq<CoinRecord>): set<Bytes32> {
    set r | r in records && r.spent :: r.coin
  }

  /** Registries from position `i` on are synced in order; the first failing sync stops the pass. */
  function SyncFrom(x: Index, tips: seq<Tip>, i: nat, spent: set<Bytes32>, syncs: map<Bytes32, Batch>): Sync
    requires i <= |tips|
    decreases |tips| - i
  {
    if i == |tips| then Sync(x, tips, None)
    else if tips[i].coin !in spent then SyncFrom(x, tips, i + 1, spent, syncs)
    else if tips[i].launcher !in syncs then Sync(x, tips, Some(SyncFailed))
    else
      var batch := syncs[tips[i].launcher];
      SyncFrom(ApplyAll(x, tips[i].launcher, batch.transitions),
               tips[i := Tip(tips[i].launcher, batch.coin)], i + 1, spent, syncs)
  }

  /** The coin records answer for exactly the followed registries, one each. */
  ghost predicate Matching(tips: seq<Tip>, records: seq<CoinRecord>) {
    DistinctRecords(records) && CoinsOf(records) == TipCoins(tips)
  }

  method ValidateRecords(tips: seq<Tip>, records: seq<CoinRecord>)
    returns (error: Option<SyncError>, spentByCoin: map<Bytes32, bool>)
    requires DistinctTips(tips)
    ensures error.None? <==> Matching(tips, records)
    ensures error == Some(DuplicateRecord) <==> !DistinctRecords(records)
    ensures error == Some(MissingRecord) <==> DistinctRecords(records) && !(TipCoins(tips) <= CoinsOf(records))
    ensures error != Some(SyncFailed)
    ensures error.None? ==> forall t :: t in tips ==>
      t.coin in spentByCoin && (spentByCoin[t.coin] <==> t.coin in SpentCoins(records))
  {
    spentByCoin := map[];
    for i := 0 to |records|
      invariant spentByCoin.Keys == CoinsOf(records[..i])
      invariant DistinctRecords(records[..i])
      invariant forall r :: r in records[..i] ==> r.coin in spentByCoin && spentByCoin[r.coin] == r.spent
    {
      var r := records[i];
      assert records[..i + 1] == records[..i] + [r];
      if r.coin in spentByCoin {
        assert !DistinctRecords(records) by {
          var q :| q in records[..i] && q.coin == r.coin;
          var j :| 0 <= j < i && records[j] == q;
        }
        return Some(DuplicateRecord), spentByCoin;
      }
      spentByCoin := spentByCoin[r.coin := r.spent];
    }
    assert records[..|records|] == records;
    for i := 0 to |tips|
      invariant forall j :: 0 <= j < i ==> tips[j].coin in spentByCoin
    {
      if tips[i].coin !in spentByCoin {
        assert tips[i].coin in TipCoins(tips);
        return Some(MissingRecord), spentByCoin;
      }
    }
    assert TipCoins(tips) <= spentByCoin.Keys;
    TipCoinsCount(tips);
    if |spentByCoin| != |tips| {
      assert |spentByCoin.Keys| == |spentByCoin|;
      return Some(UnexpectedRecord), spentByCoin;
    }
    assert |spentByCoin.Keys| == |spentByCoin|;
    SubsetSameSize(TipCoins(tips), spentByCoin.Keys);
    error := None;
    forall t | t in tips
      ensures t.coin in spentByCoin && (spentByCoin[t.coin] <==> t.coin in SpentCoins(records))
    {
      assert t.coin in TipCoins(tips);
      if t.coin in SpentCoins(records) {
        var r :| r in records && r.spent && r.coin == t.coin;
      }
    }
  }

  lemma {:induction false} TipCoinsCount(tips: seq<Tip>)
    requires DistinctTips(tips)
    ensures |TipCoins(tips)| == |tips|
  {
    if tips != [] {
      var front, t := tips[..|tips| - 1], tips[|tips| - 1];
      TipCoinsCount(front);
      assert TipCoins(tips) == TipCoins(front) + {t.coin} by {
        assert tips == front + [t];
      }
      assert t.coin !in TipCoins(front);
    }
  }

  lemma SubsetSameSize<T>(a: set<T>, b: set<T>)
    requires a <= b && |a| == |b|
    ensures a == b
  {
    assert |b - a| == |b| - |a|;
  }

  class Listener {
    const peaks: PeakLoop
    const indexer: SingletonIndexer
    var tips: seq<Tip>

    constructor (peaks: PeakLoop, indexer: SingletonIndexer, tips: seq<Tip>)
      ensures this.peaks == peaks && this.indexer == indexer && this.tips == tips
    {
      this.peaks, this.indexer, this.tips := peaks, indexer, tips;
    }

    method ProcessSpentRegistryRecords(records: seq<CoinRecord>, syncs: map<Bytes32, Batch>)
      returns (error: Option<SyncError>)
      requires DistinctTips(tips)
      modifies this`tips, indexer
      ensures !Matching(old(tips), records) ==>
        error.Some? && error != Some(SyncFailed) && tips == old(tips) && indexer.Value() == old(indexer.Value())
      ensures Matching(old(tips), records) ==>
        Sync(indexer.Value(), tips, error) == SyncFrom(old(indexer.Value()), old(tips), 0, SpentCoins(records), syncs)
    {
      var spentByCoin: map<Bytes32, bool>;
      error, spentByCoin := ValidateRecords(tips, records);
      if error.Some? {
        return;
      }
      ghost var start, spent := tips, SpentCoins(records);
      for i := 0 to |tips|
        invariant |tips| == |start| && tips[i..] == start[i..]
        invariant SyncFrom(old(indexer.Value()), start, 0, spent, syncs)
             == SyncFrom(indexer.Value(), tips, i, spent, syncs)
      {
        var tip := tips[i];
        assert tip == tips[i..][0] == start[i];
        if !spentByCoin[tip.coin] {
          assert tips[i + 1..] == tips[i..][1..] && start[i + 1..] == start[i..][1..];
          continue;
        }
        if tip.launcher !in syncs {
          return Some(SyncFailed);
        }
        var batch := syncs[tip.launcher];
        ghost var x, before := indexer.Value(), tips;
        for n := 0 to |batch.transitions|
          invariant ApplyAll(x, tip.launcher, batch.transitions)
                 == ApplyAll(indexer.Value(), tip.launcher, batch.transitions[n..])
          invariant tips == before
        {
          assert batch.transitions[n..][0] == batch.transitions[n];
          assert batch.transitions[n..][1..] == batch.transitions[n + 1..];
          indexer.ApplyRegistryTransition(tip.launcher, batch.transitions[n]);
        }
        assert tips[i + 1..] == tips[i..][1..] && start[i + 1..] == start[i..][1..];
        tips := tips[i := Tip(tip.launcher, batch.coin)];
      }
      error := None;
    }

    /**
     One peak: find a reorganization and roll the index back, replay spent registries, then follow
     blocks. After a rollback every registry is synced anew to `resynced`; the spends that sync walks
     are written to the slot tables only and are not replayed into the index. A failed replay ends
     the loop before blocks are followed.
     */
    method OnPeak(ev: PeakEvent, resynced: seq<Tip>, records: seq<CoinRecord>, syncs: map<Bytes32, Batch>)
      returns (error: Option<SyncError>)
      requires DistinctTips(tips) && DistinctTips(resynced)
      modifies this`tips, peaks, indexer
      ensures
        var l, x := old(peaks.State()), old(indexer.Value());
        var start := if Issued(l, ev).Some? then resynced else old(tips);
        var y := AfterRollback(x, Issued(l, ev));
        && (Matching(start, records) ==>
              Sync(indexer.Value(), tips, error) == SyncFrom(y, start, 0, SpentCoins(records), syncs))
        && (!Matching(start, records) ==> error.Some? && indexer.Value() == y)
        && peaks.State() == if error.None? then AfterPeak(l, ev) else AfterDetect(l, ev)
    {
      var from := peaks.DetectReorg(ev);
      if from.Some? {
        indexer.Rollback(from.value);
        tips := resynced;
      }
      error := ProcessSpentRegistryRecords(records, syncs);
      if error.None? {
        peaks.FollowBlocks(ev);
      }
    }
  }

  function AfterRollback(x: Index, from: Option<u32>): Index {
    if from.Some? then IndexRolledBack(x, from.value) else x
  }

  // ---------------------------------------------------------------------------------
  // Safety of every run
  // ---------------------------------------------------------------------------------

  /** The ideal beside the index: unpruned journals of every push replayed and not rolled back. */
  datatype Ideal = Ideal(slots: Journal<StoredSlot>, registrations: Journal<StoredRegistration>)

  function IdealTransition(j: Ideal, registry: Bytes32, t: Transition): Ideal {
    Ideal(Journaled(j.slots, SlotItems(registry, Created(t.logs), t.parents), t.height),
          Journaled(j.registrations, Facts(registry, t.logs), t.height))
  }

  function IdealAll(j: Ideal, registry: Bytes32, ts: seq<Transition>): Ideal
    decreases |ts|
  {
    if ts == [] then j else IdealAll(IdealTransition(j, registry, ts[0]), registry, ts[1..])
  }

  function IdealFrom(j: Ideal, tips: seq<Tip>, i: nat, spent: set<Bytes32>, syncs: map<Bytes32, Batch>): Ideal
    requires i <= |tips|
    decreases |tips| - i
  {
    if i == |tips| then j
    else if tips[i].coin !in spent then IdealFrom(j, tips, i + 1, spent, syncs)
    else if tips[i].launcher !in syncs then j
    else IdealFrom(IdealAll(j, tips[i].launcher, syncs[tips[i].launcher].transitions), tips, i + 1, spent, syncs)
  }

  function IdealAfterRollback(j: Ideal, from: Option<u32>): Ideal {
    if from.Some? then Ideal(JournalBelow(j.slots, from.value), JournalBelow(j.registrations, from.value)) else j
  }

  ghost predicate IndexRefines(x: Index, j: Ideal, hw: nat) {
    StoreRefines(x.slots, j.slots, hw) && StoreRefines(x.registrations, j.registrations, hw)
  }

  /** A registry's spends are replayed in height order, none above `hw`. */
  ghost predicate HeightOrdered(j: Ideal, registry: Bytes32, ts: seq<Transition>, hw: nat)
    decreases |ts|
  {
    ts != [] ==>
      && ts[0].height <= hw
      && NotAbove(j.slots, registry, ts[0].height)
      && NotAbove(j.registrations, registry, ts[0].height)
      && HeightOrdered(IdealTransition(j, registry, ts[0]), registry, ts[1..], hw)
  }

  ghost predicate SyncOrdered(j: Ideal, tips: seq<Tip>, i: nat, spent: set<Bytes32>, syncs: map<Bytes32, Batch>,
                              hw: nat)
    requires i <= |tips|
    decreases |tips| - i
  {
    if i == |tips| then true
    else if tips[i].coin !in spent then SyncOrdered(j, tips, i + 1, spent, syncs, hw)
    else if tips[i].launcher !in syncs then true
    else
      && HeightOrdered(j, tips[i].launcher, syncs[tips[i].launcher].transitions, hw)
      && SyncOrdered(IdealAll(j, tips[i].launcher, syncs[tips[i].launcher].transitions), tips, i + 1, spent, syncs, hw)
  }

  lemma {:induction false} SlotItemsKeys(registry: Bytes32, created: seq<SlotValue>, parents: map<SlotValue, Lineage>)
    ensures forall i :: 0 <= i < |SlotItems(registry, created, parents)| ==>
      SlotItems(registry, created, parents)[i].0.registry == registry
  {
    if created != [] {
      SlotItemsKeys(registry, created[..|created| - 1], parents);
    }
  }

  lemma {:induction false} FactsKeys(registry: Bytes32, logs: seq<ActionLog>)
    ensures forall i :: 0 <= i < |Facts(registry, logs)| ==> Facts(registry, logs)[i].0.registry == registry
  {
    if logs != [] {
      FactsKeys(registry, logs[..|logs| - 1]);
    }
  }

  lemma {:induction false} ApplyAllRefines(x: Index, j: Ideal, registry: Bytes32, ts: seq<Transition>, hw: nat)
    requires IndexRefines(x, j, hw) && HeightOrdered(j, registry, ts, hw)
    ensures IndexRefines(ApplyAll(x, registry, ts), IdealAll(j, registry, ts), hw)
    decreases |ts|
  {
    if ts != [] {
      var t := ts[0];
      SlotItemsKeys(registry, Created(t.logs), t.parents);
      CommitRefines(x.slots, j.slots, hw, registry, SlotItems(registry, Created(t.logs), t.parents), t.height);
      FactsKeys(registry, t.logs);
      CommitRefines(x.registrations, j.registrations, hw, registry, Facts(registry, t.logs), t.height);
      ApplyAllRefines(ApplyTransition(x, registry, t), IdealTransition(j, registry, t), registry, ts[1..], hw);
    }
  }

  lemma {:induction false} SyncRefines(x: Index, j: Ideal, tips: seq<Tip>, start: seq<Tip>, i: nat,
                                       spent: set<Bytes32>, syncs: map<Bytes32, Batch>, hw: nat)
    requires i <= |tips| == |start| && tips[i..] == start[i..]
    requires IndexRefines(x, j, hw) && SyncOrdered(j, start, i, spent, syncs, hw)
    ensures IndexRefines(SyncFrom(x, tips, i, spent, syncs).index, IdealFrom(j, start, i, spent, syncs), hw)
    decreases |tips| - i
  {
    if i < |tips| {
      assert tips[i] == tips[i..][0] == start[i];
      assert tips[i + 1..] == tips[i..][1..] == start[i..][1..] == start[i + 1..];
      if tips[i].coin !in spent {
        SyncRefines(x, j, tips, start, i + 1, spent, syncs, hw);
      } else if tips[i].launcher in syncs {
        var launcher, batch := tips[i].launcher, syncs[tips[i].launcher];
        ApplyAllRefines(x, j, launcher, batch.transitions, hw);
        SyncRefines(ApplyAll(x, launcher, batch.transitions), IdealAll(j, launcher, batch.transitions),
                    tips[i := Tip(launcher, batch.coin)], start, i + 1, spent, syncs, hw);
      }
    }
  }

  /** A sync pass fails exactly when some spent registry cannot be synced. */
  lemma {:induction false} SyncFailsIff(x: Index, tips: seq<Tip>, i: nat, spent: set<Bytes32>,
                                        syncs: map<Bytes32, Batch>)
    requires i <= |tips|
    ensures SyncFrom(x, tips, i, spent, syncs).error.Some? <==>
              exists k :: i <= k < |tips| && tips[k].coin in spent && tips[k].launcher !in syncs
    decreases |tips| - i
  {
    if i < |tips| {
      if tips[i].coin !in spent {
        SyncFailsIff(x, tips, i + 1, spent, syncs);
      } else if tips[i].launcher in syncs {
        var batch := syncs[tips[i].launcher];
        var y, rest := ApplyAll(x, tips[i].launcher, batch.transitions), tips[i := Tip(tips[i].launcher, batch.coin)];
        SyncFailsIff(y, rest, i + 1, spent, syncs);
        assert forall k :: i + 1 <= k < |tips| ==> rest[k] == tips[k];
      }
    }
  }

  /** Everything one peak brings from outside. */
  datatype Input = Input(ev: PeakEvent, resynced: seq<Tip>, records: seq<CoinRecord>, syncs: map<Bytes32, Batch>)

  /** The listener's state, with its ideal and the high-water mark of everything handed to the index. */
  datatype World = World(loop: Loop, index: Index, tips: seq<Tip>, ideal: Ideal, hw: nat)

  function StartTips(w: World, inp: Input): seq<Tip> {
    if Issued(w.loop, inp.ev).Some? then inp.resynced else w.tips
  }

  function NextWorld(w: World, inp: Input): World {
    var from := Issued(w.loop, inp.ev);
    var start := StartTips(w, inp);
    var spent := SpentCoins(inp.records);
    var sync := SyncFrom(AfterRollback(w.index, from), start, 0, spent, inp.syncs);
    World(AfterPeak(w.loop, inp.ev), sync.index, sync.tips,
          IdealFrom(IdealAfterRollback(w.ideal, from), start, 0, spent, inp.syncs),
          Max(w.hw, inp.ev.tip))
  }

  /**
   What the environment owes one peak: every block record, records for exactly the followed coins,
   a sync for every spent one, and spends replayed in height order up to the tip.
   */
  ghost predicate Provided(w: World, inp: Input) {
    && Served(w.loop, inp.ev)
    && Matching(StartTips(w, inp), inp.records)
    && (forall t :: t in StartTips(w, inp) && t.coin in SpentCoins(inp.records) ==> t.launcher in inp.syncs)
    && SyncOrdered(IdealAfterRollback(w.ideal, Issued(w.loop, inp.ev)), StartTips(w, inp), 0,
                   SpentCoins(inp.records), inp.syncs, Max(w.hw, inp.ev.tip))
  }

  ghost predicate Sound(w: World) {
    Disciplined(w.loop, w.hw) && IndexRefines(w.index, w.ideal, w.hw)
  }

  /** `current` of every Handle slot and registration is the last entry of its journal. */
  ghost predicate Current(x: Index, j: Ideal) {
    && (forall k: Key :: Lookup(x.slots, k).current == LastOf(LogOf(j.slots, k)))
    && (forall k: Key :: Lookup(x.registrations, k).current == LastOf(LogOf(j.registrations, k)))
  }

  lemma RefinesIsCurrent(x: Index, j: Ideal, hw: nat)
    requires IndexRefines(x, j, hw)
    ensures Current(x, j)
  {
    forall k: Key
      ensures Lookup(x.slots, k).current == LastOf(LogOf(j.slots, k))
      ensures Lookup(x.registrations, k).current == LastOf(LogOf(j.registrations, k))
    {
      assert Refines(Lookup(x.slots, k), LogOf(j.slots, k), hw);
      assert Refines(Lookup(x.registrations, k), LogOf(j.registrations, k), hw);
    }
  }

  /**
   A peak keeps the listener sound: the window discipline bounds the depth of the rollback it may
   issue, the rollback leaves every record at the last entry its truncated journal has, and the
   replayed spends keep it so.
   */
  lemma PeakKeepsSound(w: World, inp: Input)
    requires Sound(w) && Provided(w, inp)
    ensures Sound(NextWorld(w, inp))
    ensures Current(AfterRollback(w.index, Issued(w.loop, inp.ev)), IdealAfterRollback(w.ideal, Issued(w.loop, inp.ev)))
    ensures Current(NextWorld(w, inp).index, NextWorld(w, inp).ideal)
    ensures w.loop.window[0].height <= NextWorld(w, inp).loop.window[0].height
  {
    PeakKeepsDiscipline(w.loop, inp.ev, w.hw);
    var from, hw' := Issued(w.loop, inp.ev), Max(w.hw, inp.ev.tip);
    var x, j := AfterRollback(w.index, from), IdealAfterRollback(w.ideal, from);
    if from.Some? {
      RollbackStoreRefines(w.index.slots, w.ideal.slots, w.hw, from.value);
      RollbackStoreRefines(w.index.registrations, w.ideal.registrations, w.hw, from.value);
    }
    RefinesIsCurrent(x, j, w.hw);
    StoreRefinesMono(x.slots, j.slots, w.hw, hw');
    StoreRefinesMono(x.registrations, j.registrations, w.hw, hw');
    SyncRefines(x, j, StartTips(w, inp), StartTips(w, inp), 0, SpentCoins(inp.records), inp.syncs, hw');
    RefinesIsCurrent(NextWorld(w, inp).index, NextWorld(w, inp).ideal, hw');
  }

  function RunWorld(w: World, inputs: seq<Input>): World {
    if inputs == [] then w else NextWorld(RunWorld(w, inputs[..|inputs| - 1]), inputs[|inputs| - 1])
  }

  ghost predicate ProvidedRun(w: World, inputs: seq<Input>) {
    inputs == []
    || (ProvidedRun(w, inputs[..|inputs| - 1]) && Provided(RunWorld(w, inputs[..|inputs| - 1]), inputs[|inputs| - 1]))
  }

  /** Sound, up to date with its ideal, and with a window bottom no lower than where it started. */
  ghost predicate SoundSince(start: World, w: World) {
    && start.loop.window != [] && Sound(w)
    && Current(w.index, w.ideal)
    && start.loop.window[0].height <= w.loop.window[0].height
  }

  /**
   Over every run of the live loop, with any number of reorganizations in it: the window stays a
   contiguous run of at most 32 heights whose bottom never decreases and stays less than 32 below
   every height handed to the index, and every Handle slot and registration is exactly what the
   unpruned journal of the replayed and not rolled back spends says.
   */
  lemma {:induction false} EveryRunIsSound(w: World, inputs: seq<Input>)
    requires Sound(w) && ProvidedRun(w, inputs)
    ensures SoundSince(w, RunWorld(w, inputs))
  {
    if inputs == [] {
      RefinesIsCurrent(w.index, w.ideal, w.hw);
    } else {
      EveryRunIsSound(w, inputs[..|inputs| - 1]);
      PeakKeepsSound(RunWorld(w, inputs[..|inputs| - 1]), inputs[|inputs| - 1]);
    }
  }
}
