/**
 Runs of the live loop against the chain: which of the spends a registry has on the chain the index
 holds, and exactly when a resynchronization after a reorganization loses some of them.
 */
module ChainRuns {
  import opened Common
  import opened Registry
  import opened Versions
  import opened PeakWindow
  import opened Indexer
  import opened ListenLoop
  import opened ChainHistory

  /** A registry's coin after some spends; a coin's name commits to its ancestry. */
  type Naming = (Bytes32, seq<Transition>) -> Bytes32

  /** The listener beside the spends its saved tips stand at, and those replayed and not rolled back. */
  datatype Chained = Chained(world: World, walked: Histories, replayed: Histories)

  /**
   One peak as the chain presents it: each registry's spends when the registries are resynchronized,
   and when a spent one is synced, with the coin records in between.
   */
  datatype ChainPeak = ChainPeak(ev: PeakEvent, resync: Histories, view: Histories, records: seq<CoinRecord>)

  ghost predicate Covers(hs: Histories, registries: seq<Bytes32>) {
    forall r :: r in hs <==> r in registries
  }

  function TipsAt(registries: seq<Bytes32>, hs: Histories, coin: Naming): seq<Tip>
    requires Covers(hs, registries)
  {
    seq(|registries|, i requires 0 <= i < |registries| =>
      assert registries[i] in registries; Tip(registries[i], coin(registries[i], hs[registries[i]])))
  }

  /** Where the tips stand before spent ones are synced: as walked, or as resynchronized after a rollback. */
  function Start(c: Chained, p: ChainPeak): Histories {
    if Issued(c.world.loop, p.ev).Some? then p.resync else c.walked
  }

  ghost predicate Grows(before: Histories, after: Histories) {
    before.Keys == after.Keys && forall r :: r in before ==> before[r] <= after[r]
  }

  /** Each registry's sync walks from where its tip stands to the end of its chain. */
  function SyncsTo(start: Histories, view: Histories, coin: Naming): map<Bytes32, Batch>
    requires Grows(start, view)
  {
    map r | r in start :: Batch(coin(r, view[r]), view[r][|start[r]|..])
  }

  function InputOf(registries: seq<Bytes32>, coin: Naming, c: Chained, p: ChainPeak): Input
    requires Covers(p.resync, registries) && Grows(Start(c, p), p.view)
  {
    Input(p.ev, TipsAt(registries, p.resync, coin), p.records, SyncsTo(Start(c, p), p.view, coin))
  }

  /** Registries found spent have moved to the end of their chain. */
  function Moved(start: Histories, view: Histories, coin: Naming, spent: set<Bytes32>): Histories
    requires Grows(start, view)
  {
    map r | r in start :: if coin(r, start[r]) in spent then view[r] else start[r]
  }

  function Surviving(replayed: Histories, from: Option<u32>): Histories {
    if from.Some? then AllBelow(replayed, from.value) else replayed
  }

  /** Histories extended by what the syncs of spent registries walk. */
  function Extended(hs: Histories, start: Histories, view: Histories, coin: Naming, spent: set<Bytes32>): Histories
    requires Grows(start, view) && hs.Keys == start.Keys
  {
    map r | r in hs :: hs[r] + if coin(r, start[r]) in spent then view[r][|start[r]|..] else []
  }

  function NextChained(registries: seq<Bytes32>, coin: Naming, c: Chained, p: ChainPeak): Chained
    requires Covers(p.resync, registries) && Grows(Start(c, p), p.view)
    requires Surviving(c.replayed, Issued(c.world.loop, p.ev)).Keys == Start(c, p).Keys
  {
    var from, start, spent := Issued(c.world.loop, p.ev), Start(c, p), SpentCoins(p.records);
    Chained(NextWorld(c.world, InputOf(registries, coin, c, p)),
            Moved(start, p.view, coin, spent),
            Extended(Surviving(c.replayed, from), start, p.view, coin, spent))
  }

  /** What the syncs have still to walk is not below anything the index holds of the same registry. */
  ghost predicate Ahead(held: Histories, start: Histories, view: Histories)
    requires Grows(start, view)
  {
    && held.Keys == start.Keys
    && forall r :: r in start && |start[r]| < |view[r]| ==> AheadAt(held[r], view[r][|start[r]|])
  }

  ghost predicate AheadAt(held: seq<Transition>, next: Transition) {
    forall t :: t in held ==> t.height <= next.height
  }

  /**
   The peak is of a chain: its spends ascend up to the tip, syncs only move forward on it, the records
   answer for the tips, and registries are replayed in height order. Nothing is asked of how the chain
   relates to the one the tips stood on before a rollback.
   */
  ghost predicate OfChain(registries: seq<Bytes32>, coin: Naming, c: Chained, p: ChainPeak) {
    && Served(c.world.loop, p.ev)
    && Covers(p.resync, registries) && Covers(Start(c, p), registries) && Grows(Start(c, p), p.view)
    && Timely(p.view, Max(c.world.hw, p.ev.tip))
    && Matching(TipsAt(registries, Start(c, p), coin), p.records)
    && Ahead(Surviving(c.replayed, Issued(c.world.loop, p.ev)), Start(c, p), p.view)
  }

  /** Sound, with tips at the walked spends, and journals of exactly the replayed ones. */
  ghost predicate Tracked(registries: seq<Bytes32>, coin: Naming, c: Chained) {
    && Distinct(registries) && Covers(c.walked, registries)
    && Sound(c.world)
    && c.world.tips == TipsAt(registries, c.walked, coin)
    && JournalsAre(c.world.ideal, c.replayed) && c.replayed.Keys == c.walked.Keys
  }

  // ---------------------------------------------------------------------------------
  // One sync pass
  // ---------------------------------------------------------------------------------

  ghost predicate DistinctLaunchers(tips: seq<Tip>) {
    forall i, j :: 0 <= i < j < |tips| ==> tips[i].launcher != tips[j].launcher
  }

  /** A sync's spends ascend from above everything journaled of their registry. */
  ghost predicate Follows(j: Ideal, registry: Bytes32, ts: seq<Transition>, hw: nat) {
    && Ascending(ts) && (forall t :: t in ts ==> t.height <= hw)
    && (ts != [] ==> NothingAbove(j, registry, ts[0].height))
  }

  lemma OthersFollow(j: Ideal, registry: Bytes32, ts: seq<Transition>, other: Bytes32, us: seq<Transition>, hw: nat)
    requires registry != other && Follows(j, other, us, hw)
    ensures Follows(IdealAll(j, registry, ts), other, us, hw)
  {
    forall k: Key | k.registry == other
      ensures LogOf(IdealAll(j, registry, ts).slots, k) == LogOf(j.slots, k)
      ensures LogOf(IdealAll(j, registry, ts).registrations, k) == LogOf(j.registrations, k)
    {
      IdealAllEntries(j, registry, ts, k);
      OtherRegistry(registry, ts, k);
    }
  }

  ghost predicate AllFollow(j: Ideal, tips: seq<Tip>, i: nat, syncs: map<Bytes32, Batch>, hw: nat) {
    forall m :: i <= m < |tips| && tips[m].launcher in syncs ==>
      Follows(j, tips[m].launcher, syncs[tips[m].launcher].transitions, hw)
  }

  lemma {:induction false} SyncIsOrdered(j: Ideal, tips: seq<Tip>, i: nat, spent: set<Bytes32>,
                                         syncs: map<Bytes32, Batch>, hw: nat)
    requires i <= |tips| && DistinctLaunchers(tips) && AllFollow(j, tips, i, syncs, hw)
    ensures SyncOrdered(j, tips, i, spent, syncs, hw)
    decreases |tips| - i
  {
    if i < |tips| {
      var l := tips[i].launcher;
      if tips[i].coin !in spent {
        SyncIsOrdered(j, tips, i + 1, spent, syncs, hw);
      } else if l in syncs {
        var ts := syncs[l].transitions;
        AscendingIsOrdered(j, l, ts, hw);
        forall m | i + 1 <= m < |tips| && tips[m].launcher in syncs
          ensures Follows(IdealAll(j, l, ts), tips[m].launcher, syncs[tips[m].launcher].transitions, hw)
        {
          OthersFollow(j, l, ts, tips[m].launcher, syncs[tips[m].launcher].transitions, hw);
        }
        SyncIsOrdered(IdealAll(j, l, ts), tips, i + 1, spent, syncs, hw);
      }
    }
  }

  /** Histories after the syncs of the registries from position `i` on. */
  function SyncedFrom(hs: Histories, tips: seq<Tip>, i: nat, spent: set<Bytes32>, syncs: map<Bytes32, Batch>): Histories
    requires i <= |tips|
    requires forall t :: t in tips ==> t.launcher in hs && t.launcher in syncs
    decreases |tips| - i
  {
    if i == |tips| then hs
    else
      var t := tips[i];
      assert t in tips;
      SyncedFrom(if t.coin in spent then hs[t.launcher := hs[t.launcher] + syncs[t.launcher].transitions] else hs,
                 tips, i + 1, spent, syncs)
  }

  lemma {:induction false} SyncJournals(j: Ideal, hs: Histories, tips: seq<Tip>, i: nat, spent: set<Bytes32>,
                                        syncs: map<Bytes32, Batch>)
    requires i <= |tips| && JournalsAre(j, hs)
    requires forall t :: t in tips ==> t.launcher in hs && t.launcher in syncs
    ensures JournalsAre(IdealFrom(j, tips, i, spent, syncs), SyncedFrom(hs, tips, i, spent, syncs))
    decreases |tips| - i
  {
    if i < |tips| {
      var t := tips[i];
      assert t in tips;
      if t.coin in spent {
        ReplayExtends(j, hs, t.launcher, syncs[t.launcher].transitions);
        SyncJournals(IdealAll(j, t.launcher, syncs[t.launcher].transitions),
                     hs[t.launcher := hs[t.launcher] + syncs[t.launcher].transitions], tips, i + 1, spent, syncs);
      } else {
        SyncJournals(j, hs, tips, i + 1, spent, syncs);
      }
    }
  }

  /** Each registry is synced at most once, at its own position. */
  lemma {:induction false} SyncedFromAt(hs: Histories, tips: seq<Tip>, i: nat, spent: set<Bytes32>,
                                        syncs: map<Bytes32, Batch>, r: Bytes32)
    requires i <= |tips| && DistinctLaunchers(tips)
    requires forall t :: t in tips ==> t.launcher in hs && t.launcher in syncs
    ensures SyncedFrom(hs, tips, i, spent, syncs).Keys == hs.Keys
    ensures r in hs && (forall m :: i <= m < |tips| ==> tips[m].launcher != r) ==>
      SyncedFrom(hs, tips, i, spent, syncs)[r] == hs[r]
    ensures forall m :: i <= m < |tips| && tips[m].launcher == r ==>
      SyncedFrom(hs, tips, i, spent, syncs)[r] == hs[r] + (if tips[m].coin in spent then syncs[r].transitions else [])
    decreases |tips| - i
  {
    if i < |tips| {
      var t := tips[i];
      assert t in tips;
      var next := if t.coin in spent then hs[t.launcher := hs[t.launcher] + syncs[t.launcher].transitions] else hs;
      SyncedFromAt(next, tips, i + 1, spent, syncs, r);
      if t.launcher == r {
        assert hs[r] + [] == hs[r];
      }
    }
  }

  /** A tip whose coin is spent moves to the coin its sync returns. */
  function TipAfter(t: Tip, spent: set<Bytes32>, syncs: map<Bytes32, Batch>): Tip {
    if t.coin in spent && t.launcher in syncs then Tip(t.launcher, syncs[t.launcher].coin) else t
  }

  lemma {:induction false} SyncTips(x: Index, tips: seq<Tip>, i: nat, spent: set<Bytes32>, syncs: map<Bytes32, Batch>)
    requires i <= |tips| && forall m :: i <= m < |tips| ==> tips[m].launcher in syncs
    ensures |SyncFrom(x, tips, i, spent, syncs).tips| == |tips|
    ensures forall m :: 0 <= m < i ==> SyncFrom(x, tips, i, spent, syncs).tips[m] == tips[m]
    ensures forall m :: i <= m < |tips| ==>
      SyncFrom(x, tips, i, spent, syncs).tips[m] == TipAfter(tips[m], spent, syncs)
    decreases |tips| - i
  {
    if i < |tips| {
      var l := tips[i].launcher;
      if tips[i].coin !in spent {
        SyncTips(x, tips, i + 1, spent, syncs);
      } else {
        var rest := tips[i := Tip(l, syncs[l].coin)];
        SyncTips(ApplyAll(x, l, syncs[l].transitions), rest, i + 1, spent, syncs);
      }
    }
  }

  lemma TipsAreDistinct(registries: seq<Bytes32>, hs: Histories, coin: Naming)
    requires Distinct(registries) && Covers(hs, registries)
    ensures DistinctLaunchers(TipsAt(registries, hs, coin))
    ensures forall t :: t in TipsAt(registries, hs, coin) ==> t.launcher in hs
  {
  }

  // ---------------------------------------------------------------------------------
  // One peak
  // ---------------------------------------------------------------------------------

  /** Syncs that are ahead of what the journals hold replay in order. */
  lemma SyncsFollow(registries: seq<Bytes32>, coin: Naming, j: Ideal, hs: Histories, start: Histories,
                    view: Histories, hw: nat)
    requires Distinct(registries) && Covers(start, registries) && Grows(start, view) && Timely(view, hw)
    requires JournalsAre(j, hs) && Ahead(hs, start, view)
    ensures AllFollow(j, TipsAt(registries, start, coin), 0, SyncsTo(start, view, coin), hw)
  {
    var tips, syncs := TipsAt(registries, start, coin), SyncsTo(start, view, coin);
    forall m | 0 <= m < |tips| && tips[m].launcher in syncs
      ensures Follows(j, tips[m].launcher, syncs[tips[m].launcher].transitions, hw)
    {
      RestFollows(j, hs, start, view, tips[m].launcher, hw);
    }
  }

  lemma RestFollows(j: Ideal, hs: Histories, start: Histories, view: Histories, r: Bytes32, hw: nat)
    requires Grows(start, view) && Timely(view, hw) && r in start
    requires JournalsAre(j, hs) && Ahead(hs, start, view)
    ensures Follows(j, r, view[r][|start[r]|..], hw)
  {
    var n, ts := |start[r]|, view[r][|start[r]|..];
    assert forall i :: 0 <= i < |ts| ==> ts[i] == view[r][n + i];
    forall t | t in ts ensures t in view[r] {
      var i :| 0 <= i < |ts| && ts[i] == t;
      assert view[r][n + i] == t;
    }
    if ts != [] {
      assert AheadAt(hs[r], view[r][n]);
      LogsNotAbove(j, hs, r, ts[0].height);
    }
  }

  lemma LogsNotAbove(j: Ideal, hs: Histories, r: Bytes32, height: u32)
    requires JournalsAre(j, hs) && r in hs && forall t :: t in hs[r] ==> t.height <= height
    ensures NothingAbove(j, r, height)
  {
    forall k: Key | k.registry == r
      ensures LogOf(j.slots, k) != [] ==> LastOf(LogOf(j.slots, k)).value.height <= height
      ensures LogOf(j.registrations, k) != [] ==> LastOf(LogOf(j.registrations, k)).value.height <= height
    {
      assert LogOf(j.slots, k) == SlotLog(hs, k) && LogOf(j.registrations, k) == FactLog(hs, k);
      EntriesBounded(SlotsOf(r), hs[r], k, height);
      EntriesBounded(FactsOf(r), hs[r], k, height);
    }
  }

  /** A sync pass extends the journaled histories by what each spent registry's sync walks. */
  lemma SyncExtends(registries: seq<Bytes32>, coin: Naming, j: Ideal, hs: Histories, start: Histories, view: Histories,
                    spent: set<Bytes32>)
    requires Distinct(registries) && Covers(start, registries) && Grows(start, view)
    requires JournalsAre(j, hs) && hs.Keys == start.Keys
    ensures JournalsAre(IdealFrom(j, TipsAt(registries, start, coin), 0, spent, SyncsTo(start, view, coin)),
                        Extended(hs, start, view, coin, spent))
  {
    var tips, syncs := TipsAt(registries, start, coin), SyncsTo(start, view, coin);
    TipsAreDistinct(registries, start, coin);
    SyncJournals(j, hs, tips, 0, spent, syncs);
    var synced, extended := SyncedFrom(hs, tips, 0, spent, syncs), Extended(hs, start, view, coin, spent);
    forall r | r in hs ensures r in synced && synced[r] == extended[r] {
      SyncedFromAt(hs, tips, 0, spent, syncs, r);
      var m :| 0 <= m < |registries| && registries[m] == r;
      assert tips[m] == Tip(r, coin(r, start[r]));
    }
    assert synced == extended by {
      SyncedFromAt(hs, tips, 0, spent, syncs, ZERO);
    }
  }

  lemma SyncMoves(registries: seq<Bytes32>, coin: Naming, x: Index, start: Histories, view: Histories,
                  spent: set<Bytes32>)
    requires Covers(start, registries) && Grows(start, view)
    ensures Covers(Moved(start, view, coin, spent), registries)
    ensures SyncFrom(x, TipsAt(registries, start, coin), 0, spent, SyncsTo(start, view, coin)).tips
         == TipsAt(registries, Moved(start, view, coin, spent), coin)
  {
    var tips := TipsAt(registries, start, coin);
    forall m | 0 <= m < |tips| ensures tips[m].launcher in start {
      assert registries[m] in registries;
    }
    SyncTips(x, tips, 0, spent, SyncsTo(start, view, coin));
  }

  /** What the journals hold after the rollback of a peak. */
  lemma SurvivingJournals(registries: seq<Bytes32>, coin: Naming, c: Chained, p: ChainPeak)
    requires Tracked(registries, coin, c)
    ensures
      var from := Issued(c.world.loop, p.ev);
      JournalsAre(IdealAfterRollback(c.world.ideal, from), Surviving(c.replayed, from))
  {
    var from := Issued(c.world.loop, p.ev);
    if from.Some? {
      JournalsRolledBack(c.world.ideal, c.replayed, from.value);
    }
  }

  lemma PeakIsProvided(registries: seq<Bytes32>, coin: Naming, c: Chained, p: ChainPeak)
    requires Tracked(registries, coin, c) && OfChain(registries, coin, c, p)
    ensures StartTips(c.world, InputOf(registries, coin, c, p)) == TipsAt(registries, Start(c, p), coin)
    ensures Provided(c.world, InputOf(registries, coin, c, p))
  {
    var from, hw := Issued(c.world.loop, p.ev), Max(c.world.hw, p.ev.tip);
    var start, tips := Start(c, p), TipsAt(registries, Start(c, p), coin);
    SurvivingJournals(registries, coin, c, p);
    SyncsFollow(registries, coin, IdealAfterRollback(c.world.ideal, from), Surviving(c.replayed, from), start, p.view,
                hw);
    TipsAreDistinct(registries, start, coin);
    SyncIsOrdered(IdealAfterRollback(c.world.ideal, from), tips, 0, SpentCoins(p.records), SyncsTo(start, p.view,
                  coin), hw);
  }

  /**
   A peak keeps the listener tracked: the index then shows exactly the spends that were replayed and
   not rolled back.
   */
  lemma PeakKeepsTracked(registries: seq<Bytes32>, coin: Naming, c: Chained, p: ChainPeak)
    requires Tracked(registries, coin, c) && OfChain(registries, coin, c, p)
    ensures Surviving(c.replayed, Issued(c.world.loop, p.ev)).Keys == Start(c, p).Keys
    ensures
      var next := NextChained(registries, coin, c, p);
      Tracked(registries, coin, next) && Shows(next.world.index, next.replayed)
  {
    var from, start, spent := Issued(c.world.loop, p.ev), Start(c, p), SpentCoins(p.records);
    SurvivingJournals(registries, coin, c, p);
    PeakIsProvided(registries, coin, c, p);
    PeakKeepsSound(c.world, InputOf(registries, coin, c, p));
    SyncExtends(registries, coin, IdealAfterRollback(c.world.ideal, from), Surviving(c.replayed, from), start, p.view,
                spent);
    SyncMoves(registries, coin, AfterRollback(c.world.index, from), start, p.view, spent);
    var next := NextChained(registries, coin, c, p);
    CurrentShows(next.world.index, next.world.ideal, next.replayed);
  }

  // ---------------------------------------------------------------------------------
  // Whole runs
  // ---------------------------------------------------------------------------------

  ghost predicate CanStep(registries: seq<Bytes32>, coin: Naming, c: Chained, p: ChainPeak) {
    OfChain(registries, coin, c, p) && Surviving(c.replayed, Issued(c.world.loop, p.ev)).Keys == Start(c, p).Keys
  }

  ghost function AfterPeaks(registries: seq<Bytes32>, coin: Naming, c: Chained, ps: seq<ChainPeak>): Chained {
    if ps == [] then c
    else
      var before := AfterPeaks(registries, coin, c, ps[..|ps| - 1]);
      if CanStep(registries, coin, before, ps[|ps| - 1]) then NextChained(registries, coin, before, ps[|ps| - 1])
      else before
  }

  ghost predicate AllOfChain(registries: seq<Bytes32>, coin: Naming, c: Chained, ps: seq<ChainPeak>) {
    ps == []
    || (AllOfChain(registries, coin, c, ps[..|ps| - 1])
        && OfChain(registries, coin, AfterPeaks(registries, coin, c, ps[..|ps| - 1]), ps[|ps| - 1]))
  }

  /** Every run: the index shows exactly the spends that were replayed and not rolled back. */
  lemma {:induction false} EveryRunShowsReplayed(registries: seq<Bytes32>, coin: Naming, c: Chained, ps: seq<ChainPeak>)
    requires Tracked(registries, coin, c) && AllOfChain(registries, coin, c, ps)
    ensures
      var end := AfterPeaks(registries, coin, c, ps);
      Tracked(registries, coin, end) && Shows(end.world.index, end.replayed)
  {
    if ps == [] {
      RefinesIsCurrent(c.world.index, c.world.ideal, c.world.hw);
      CurrentShows(c.world.index, c.world.ideal, c.replayed);
    } else {
      EveryRunShowsReplayed(registries, coin, c, ps[..|ps| - 1]);
      PeakKeepsTracked(registries, coin, AfterPeaks(registries, coin, c, ps[..|ps| - 1]), ps[|ps| - 1]);
    }
  }

  /** Two histories leave the same logs behind. */
  ghost predicate SameLogs(a: Histories, b: Histories) {
    forall k: Key :: SlotLog(a, k) == SlotLog(b, k) && FactLog(a, k) == FactLog(b, k)
  }

  /** What a rollback of this peak leaves of the walked spends makes the same logs as what the tips move to. */
  ghost predicate LosesNothing(c: Chained, p: ChainPeak) {
    var from := Issued(c.world.loop, p.ev);
    from.Some? ==> SameLogs(AllBelow(c.walked, from.value), p.resync)
  }

  ghost predicate NeverLoses(registries: seq<Bytes32>, coin: Naming, c: Chained, ps: seq<ChainPeak>) {
    ps == []
    || (NeverLoses(registries, coin, c, ps[..|ps| - 1])
        && LosesNothing(AfterPeaks(registries, coin, c, ps[..|ps| - 1]), ps[|ps| - 1]))
  }

  /** The index has everything the tips have walked. */
  ghost predicate UpToDate(c: Chained) {
    JournalsAre(c.world.ideal, c.walked)
  }

  lemma StartUpToDate(registries: seq<Bytes32>, coin: Naming, c: Chained, p: ChainPeak)
    requires Tracked(registries, coin, c) && OfChain(registries, coin, c, p) && UpToDate(c) && LosesNothing(c, p)
    ensures JournalsAre(IdealAfterRollback(c.world.ideal, Issued(c.world.loop, p.ev)), Start(c, p))
  {
    var from := Issued(c.world.loop, p.ev);
    if from.Some? {
      JournalsRolledBack(c.world.ideal, c.walked, from.value);
      SameJournals(IdealAfterRollback(c.world.ideal, from), AllBelow(c.walked, from.value), p.resync);
    }
  }

  lemma SameJournals(j: Ideal, a: Histories, b: Histories)
    requires JournalsAre(j, a) && SameLogs(a, b)
    ensures JournalsAre(j, b)
  {
    forall k: Key ensures LogOf(j.slots, k) == SlotLog(b, k) && LogOf(j.registrations, k) == FactLog(b, k) {
      assert LogOf(j.slots, k) == SlotLog(a, k);
    }
  }

  lemma PeakStaysUpToDate(registries: seq<Bytes32>, coin: Naming, c: Chained, p: ChainPeak)
    requires Tracked(registries, coin, c) && CanStep(registries, coin, c, p) && UpToDate(c) && LosesNothing(c, p)
    ensures UpToDate(NextChained(registries, coin, c, p))
  {
    var start, spent := Start(c, p), SpentCoins(p.records);
    StartUpToDate(registries, coin, c, p);
    PeakIsProvided(registries, coin, c, p);
    SyncExtends(registries, coin, IdealAfterRollback(c.world.ideal, Issued(c.world.loop, p.ev)), start, start, p.view,
                spent);
    MovedIsExtended(start, p.view, coin, spent);
  }

  lemma MovedIsExtended(start: Histories, view: Histories, coin: Naming, spent: set<Bytes32>)
    requires Grows(start, view)
    ensures Extended(start, start, view, coin, spent) == Moved(start, view, coin, spent)
  {
    forall r | r in start ensures view[r] == start[r] + view[r][|start[r]|..] && start[r] == start[r] + [] {
    }
  }

  /**
   As long as rollbacks and resynchronizations keep to the same logs, the index shows every spend its
   tips have walked: each slot and registration is what the surviving chain last made of it.
   */
  lemma {:induction false} LosslessRunShowsChain(registries: seq<Bytes32>, coin: Naming, c: Chained, ps: seq<ChainPeak>)
    requires Tracked(registries, coin, c) && UpToDate(c)
    requires AllOfChain(registries, coin, c, ps) && NeverLoses(registries, coin, c, ps)
    ensures
      var end := AfterPeaks(registries, coin, c, ps);
      UpToDate(end) && Shows(end.world.index, end.walked)
  {
    if ps == [] {
      RefinesIsCurrent(c.world.index, c.world.ideal, c.world.hw);
      CurrentShows(c.world.index, c.world.ideal, c.walked);
    } else {
      var front, p := ps[..|ps| - 1], ps[|ps| - 1];
      var before, end := AfterPeaks(registries, coin, c, front), AfterPeaks(registries, coin, c, ps);
      LosslessRunShowsChain(registries, coin, c, front);
      EveryRunShowsReplayed(registries, coin, c, front);
      PeakKeepsTracked(registries, coin, before, p);
      PeakStaysUpToDate(registries, coin, before, p);
      RefinesIsCurrent(end.world.index, end.world.ideal, end.world.hw);
      CurrentShows(end.world.index, end.world.ideal, end.walked);
    }
  }

  // ---------------------------------------------------------------------------------
  // The start of a run
  // ---------------------------------------------------------------------------------

  lemma UpToDateShows(c: Chained)
    requires Sound(c.world) && UpToDate(c)
    ensures Shows(c.world.index, c.walked)
  {
    RefinesIsCurrent(c.world.index, c.world.ideal, c.world.hw);
    CurrentShows(c.world.index, c.world.ideal, c.walked);
  }

  /** The state after a cold start: every history replayed, and a window of just the tip. */
  function Started(registries: seq<Bytes32>, coin: Naming, hs: Histories, tip: u32, hash: Hash): Chained
    requires Covers(hs, registries)
  {
    assert forall r :: r in registries ==> r in hs;
    var world := World(Loop([Entry(tip, hash)], tip), Startup(registries, hs), TipsAt(registries, hs, coin),
                       StartupJournals(registries, hs), tip);
    Chained(world, hs, hs)
  }

  /** A cold start that replays whatever the registries' histories are up to the tip is sound and up to date. */
  lemma StartIsSound(registries: seq<Bytes32>, coin: Naming, hs: Histories, tip: u32, hash: Hash)
    requires Distinct(registries) && Covers(hs, registries) && Timely(hs, tip) && 0 < tip
    ensures Tracked(registries, coin, Started(registries, coin, hs, tip, hash))
    ensures UpToDate(Started(registries, coin, hs, tip, hash))
  {
    StartupRefines(registries, hs, tip);
    assert Restricted(hs, registries) == hs;
  }
}
