/**
 What a rollback and the resynchronization after it do to the index: exactly when it still shows the
 chain, and runs from a start at which it no longer does.
 */
module ChainReorgs {
  import opened Common
  import opened Registry
  import opened Versions
  import opened PeakWindow
  import opened Indexer
  import opened ListenLoop
  import opened ChainHistory
  import opened ChainRuns

  // ---------------------------------------------------------------------------------
  // What a resynchronization loses
  // ---------------------------------------------------------------------------------

  /** A spend that leaves a trace in the index: a created slot, or a registration fact. */
  predicate Creates(registry: Bytes32, t: Transition) {
    SlotsOf(registry)(t) != [] || FactsOf(registry)(t) != []
  }

  /** None of the spends at or above a height creates anything. */
  ghost predicate NothingAtOrAbove(hs: Histories, from: nat) {
    forall r, t :: r in hs && t in hs[r] && t.height >= from ==> !Creates(r, t)
  }

  lemma {:induction false} EntriesKept<T>(f: Projection<T>, ts: seq<Transition>, k: Key, from: nat)
    requires forall t :: t in ts && t.height >= from ==> f(t) == []
    ensures Entries(f, SpendsBelow(ts, from), k) == Entries(f, ts, k)
  {
    if ts != [] {
      var front, t := ts[..|ts| - 1], ts[|ts| - 1];
      assert t in ts;
      EntriesKept(f, front, k, from);
      if t.height < from {
        EntriesConcat(f, SpendsBelow(front, from), [t], k);
        OneEntry(f, t, k);
      }
    }
  }

  lemma {:induction false} EntriesSorted<T>(f: Projection<T>, ts: seq<Transition>, k: Key)
    requires Ascending(ts)
    ensures Sorted(Entries(f, ts, k))
  {
    if ts != [] {
      var front, t := ts[..|ts| - 1], ts[|ts| - 1];
      EntriesSorted(f, front, k);
      forall u | u in front ensures u.height <= t.height {
        var i :| 0 <= i < |front| && front[i] == u;
        assert ts[i] == u;
      }
      EntriesBounded(f, front, k, t.height);
      PickedIs(f(t), k, t.height);
    }
  }

  lemma {:induction false} EntriesHave<T>(f: Projection<T>, ts: seq<Transition>, k: Key, t: Transition)
    requires t in ts && exists i :: 0 <= i < |f(t)| && f(t)[i].0 == k
    ensures exists i :: 0 <= i < |Entries(f, ts, k)| && Entries(f, ts, k)[i].height == t.height
  {
    var front, last := ts[..|ts| - 1], ts[|ts| - 1];
    var es := Entries(f, front, k);
    if t == last {
      PickedIs(f(t), k, t.height);
      assert Entries(f, ts, k)[|es|].height == t.height;
    } else {
      assert ts == front + [last];
      EntriesHave(f, front, k, t);
      var i :| 0 <= i < |es| && es[i].height == t.height;
      assert Entries(f, ts, k)[i] == es[i];
    }
  }

  /** A log that reaches a height does not end where its truncation there ends. */
  lemma ReachesPast<T>(log: seq<Entry<T>>, kept: seq<Entry<T>>, from: nat)
    requires Sorted(log) && exists i :: 0 <= i < |log| && log[i].height >= from
    ensures LastOf(Below(kept, from)) != LastOf(log)
  {
    if Below(kept, from) != [] {
      LastBelow(kept, from);
    }
  }

  lemma {:induction false} LastBelow<T>(s: seq<Entry<T>>, from: nat)
    requires Below(s, from) != []
    ensures LastOf(Below(s, from)).value.height < from
  {
    if s[|s| - 1].height >= from {
      LastBelow(s[..|s| - 1], from);
    }
  }

  /** Where the index stands after the rollback, against a history that agrees with the old one below it. */
  lemma RolledBackShows(x: Index, j: Ideal, hw: nat, walked: Histories, from: u32, k: Key)
    requires IndexRefines(x, j, hw) && SatSub(hw, RETENTION) <= from && JournalsAre(j, walked)
    ensures Lookup(IndexRolledBack(x, from).slots, k).current == LastOf(Below(SlotLog(walked, k), from))
    ensures Lookup(IndexRolledBack(x, from).registrations, k).current == LastOf(Below(FactLog(walked, k), from))
  {
    RollbackKeyRefines(x.slots, j.slots, hw, from, k);
    RollbackKeyRefines(x.registrations, j.registrations, hw, from, k);
    assert LogOf(j.slots, k) == SlotLog(walked, k) && LogOf(j.registrations, k) == FactLog(walked, k);
  }

  lemma PassedAt<T>(f: Projection<T>, ts: seq<Transition>, k: Key, t: Transition, kept: seq<Entry<T>>, from: u32)
    requires Ascending(ts) && t in ts && t.height >= from && exists i :: 0 <= i < |f(t)| && f(t)[i].0 == k
    ensures LastOf(Below(kept, from)) != LastOf(Entries(f, ts, k))
  {
    EntriesHave(f, ts, k, t);
    EntriesSorted(f, ts, k);
    ReachesPast(Entries(f, ts, k), kept, from);
  }

  lemma PassedSlotIsMissing(x: Index, j: Ideal, hw: nat, walked: Histories, resync: Histories, from: u32,
                            r: Bytes32, t: Transition)
    requires IndexRefines(x, j, hw) && SatSub(hw, RETENTION) <= from && JournalsAre(j, walked)
    requires r in resync && Ascending(resync[r]) && t in resync[r] && t.height >= from && SlotsOf(r)(t) != []
    ensures !Shows(IndexRolledBack(x, from), resync)
  {
    SlotItemsKeys(r, Created(t.logs), t.parents);
    var k := SlotsOf(r)(t)[0].0;
    assert k.registry == r;
    PassedAt(SlotsOf(r), resync[r], k, t, SlotLog(walked, k), from);
    RolledBackShows(x, j, hw, walked, from, k);
    assert !ShowsAt(IndexRolledBack(x, from), resync, k);
  }

  lemma PassedFactIsMissing(x: Index, j: Ideal, hw: nat, walked: Histories, resync: Histories, from: u32,
                            r: Bytes32, t: Transition)
    requires IndexRefines(x, j, hw) && SatSub(hw, RETENTION) <= from && JournalsAre(j, walked)
    requires r in resync && Ascending(resync[r]) && t in resync[r] && t.height >= from && FactsOf(r)(t) != []
    ensures !Shows(IndexRolledBack(x, from), resync)
  {
    FactsKeys(r, t.logs);
    var k := FactsOf(r)(t)[0].0;
    assert k.registry == r;
    PassedAt(FactsOf(r), resync[r], k, t, FactLog(walked, k), from);
    RolledBackShows(x, j, hw, walked, from, k);
    assert !ShowsAt(IndexRolledBack(x, from), resync, k);
  }

  /** A creating spend that the resynchronized tip has already passed is missing from the index. */
  lemma PassedSpendIsMissing(x: Index, j: Ideal, hw: nat, walked: Histories, resync: Histories, from: u32,
                             r: Bytes32, t: Transition)
    requires IndexRefines(x, j, hw) && SatSub(hw, RETENTION) <= from && JournalsAre(j, walked)
    requires r in resync && Ascending(resync[r]) && t in resync[r] && t.height >= from && Creates(r, t)
    ensures !Shows(IndexRolledBack(x, from), resync)
  {
    if SlotsOf(r)(t) != [] {
      PassedSlotIsMissing(x, j, hw, walked, resync, from, r, t);
    } else {
      PassedFactIsMissing(x, j, hw, walked, resync, from, r, t);
    }
  }

  lemma PrefixAscends(a: seq<Transition>, b: seq<Transition>)
    requires a <= b && Ascending(b)
    ensures Ascending(a)
  {
  }

  /** Two histories last made the same of every key. */
  ghost predicate SameLast(a: Histories, b: Histories) {
    forall k: Key :: SameLastAt(a, b, k)
  }

  ghost predicate SameLastAt(a: Histories, b: Histories, k: Key) {
    LastOf(SlotLog(a, k)) == LastOf(SlotLog(b, k)) && LastOf(FactLog(a, k)) == LastOf(FactLog(b, k))
  }

  /**
   Right after any rollback within the retention and the resynchronization that follows it, the index
   shows the spends the tips now stand at if and only if these last made the same of every key as the
   old spends below the rollback height, which is all the index still holds.
   */
  lemma ResyncShowsIff(x: Index, j: Ideal, hw: nat, walked: Histories, resync: Histories, from: u32)
    requires IndexRefines(x, j, hw) && SatSub(hw, RETENTION) <= from && JournalsAre(j, walked)
    ensures Shows(IndexRolledBack(x, from), resync) <==> SameLast(AllBelow(walked, from), resync)
  {
    forall k: Key
      ensures ShowsAt(IndexRolledBack(x, from), resync, k) <==> SameLastAt(AllBelow(walked, from), resync, k)
    {
      RolledBackShows(x, j, hw, walked, from, k);
      LogsBelow(walked, from, k);
    }
  }

  /** Two views of the chain have the same spends below a height. */
  ghost predicate SameBelow(a: Histories, b: Histories, from: nat) {
    AllBelow(a, from) == AllBelow(b, from)
  }

  /** The spends at or above a height. */
  function SpendsFrom(ts: seq<Transition>, from: nat): seq<Transition> {
    if ts == [] then []
    else
      var rest := SpendsFrom(ts[..|ts| - 1], from);
      if ts[|ts| - 1].height >= from then rest + [ts[|ts| - 1]] else rest
  }

  function AllFrom(hs: Histories, from: nat): Histories {
    map r | r in hs :: SpendsFrom(hs[r], from)
  }

  lemma {:induction false} SpendsSplit(ts: seq<Transition>, from: nat)
    requires Ascending(ts)
    ensures ts == SpendsBelow(ts, from) + SpendsFrom(ts, from)
    ensures forall t :: t in SpendsFrom(ts, from) ==> t in ts && t.height >= from
    ensures ts != [] && ts[|ts| - 1].height < from ==> SpendsFrom(ts, from) == []
  {
    if ts != [] {
      var front, t := ts[..|ts| - 1], ts[|ts| - 1];
      assert ts == front + [t];
      SpendsSplit(front, from);
      if t.height < from && front != [] {
        assert ts[|front| - 1].height <= t.height;
      }
    }
  }

  lemma {:induction false} BelowTwice(ts: seq<Transition>, low: nat, high: nat)
    requires low <= high
    ensures SpendsBelow(SpendsBelow(ts, high), low) == SpendsBelow(ts, low)
  {
    if ts != [] {
      var front, t := ts[..|ts| - 1], ts[|ts| - 1];
      BelowTwice(front, low, high);
      if t.height < high {
        var kept := SpendsBelow(front, high);
        assert (kept + [t])[..|kept|] == kept;
      }
    }
  }

  lemma {:induction false} BelowAscends(ts: seq<Transition>, from: nat)
    requires Ascending(ts)
    ensures Ascending(SpendsBelow(ts, from))
  {
    SpendsSplit(ts, from);
    PrefixAscends(SpendsBelow(ts, from), ts);
  }

  lemma {:induction false} EntriesAtLeast<T>(f: Projection<T>, ts: seq<Transition>, k: Key, height: nat)
    requires forall t :: t in ts ==> t.height >= height
    ensures forall i :: 0 <= i < |Entries(f, ts, k)| ==> Entries(f, ts, k)[i].height >= height
  {
    if ts != [] {
      var front, t := ts[..|ts| - 1], ts[|ts| - 1];
      assert t in ts;
      EntriesAtLeast(f, front, k, height);
      PickedIs(f(t), k, t.height);
    }
  }

  /** Of two logs that agree below a height, the ends agree exactly when what is at or above it ends alike. */
  lemma EndsAgree<T>(a: seq<Entry<T>>, b: seq<Entry<T>>, c: seq<Entry<T>>, fork: nat)
    requires forall i :: 0 <= i < |a| ==> a[i].height < fork
    requires forall i :: 0 <= i < |b| ==> b[i].height >= fork
    requires forall i :: 0 <= i < |c| ==> c[i].height >= fork
    ensures LastOf(a + b) == LastOf(a + c) <==> LastOf(b) == LastOf(c)
  {
  }

  lemma ForkEntries<T>(f: Projection<T>, us: seq<Transition>, vs: seq<Transition>, k: Key, fork: nat)
    requires Ascending(us) && Ascending(vs) && SpendsBelow(us, fork) == SpendsBelow(vs, fork)
    ensures LastOf(Entries(f, us, k)) == LastOf(Entries(f, vs, k))
       <==> LastOf(Entries(f, SpendsFrom(us, fork), k)) == LastOf(Entries(f, SpendsFrom(vs, fork), k))
  {
    var common := SpendsBelow(us, fork);
    SpendsSplit(us, fork);
    SpendsSplit(vs, fork);
    EntriesConcat(f, common, SpendsFrom(us, fork), k);
    EntriesConcat(f, common, SpendsFrom(vs, fork), k);
    EntriesAtLeast(f, SpendsFrom(us, fork), k, fork);
    EntriesAtLeast(f, SpendsFrom(vs, fork), k, fork);
    CommonEntries(f, us, k, fork);
    EndsAgree(Entries(f, common, k), Entries(f, SpendsFrom(us, fork), k), Entries(f, SpendsFrom(vs, fork), k), fork);
  }

  lemma CommonEntries<T>(f: Projection<T>, ts: seq<Transition>, k: Key, fork: nat)
    ensures forall i :: 0 <= i < |Entries(f, SpendsBelow(ts, fork), k)| ==>
      Entries(f, SpendsBelow(ts, fork), k)[i].height < fork
  {
    if fork > 0 {
      forall t | t in SpendsBelow(ts, fork) ensures t.height <= fork - 1 {
        SpendsBelowAre(ts, fork, t);
      }
      EntriesBounded(f, SpendsBelow(ts, fork), k, fork - 1);
    } else {
      BelowZero(ts);
    }
  }

  lemma {:induction false} BelowZero(ts: seq<Transition>)
    ensures SpendsBelow(ts, 0) == []
  {
    if ts != [] {
      BelowZero(ts[..|ts| - 1]);
    }
  }

  /** From a common fork on, only the spends at or above it decide. */
  lemma SameLastFromFork(a: Histories, b: Histories, fork: nat)
    requires SameBelow(a, b, fork)
    requires (forall r :: r in a ==> Ascending(a[r])) && forall r :: r in b ==> Ascending(b[r])
    ensures SameLast(a, b) <==> SameLast(AllFrom(a, fork), AllFrom(b, fork))
  {
    forall k: Key ensures SameLastAt(a, b, k) <==> SameLastAt(AllFrom(a, fork), AllFrom(b, fork), k) {
      var r := k.registry;
      assert r in AllBelow(a, fork) <==> r in AllBelow(b, fork);
      if r in a {
        assert AllBelow(a, fork)[r] == AllBelow(b, fork)[r];
        ForkEntries(SlotsOf(r), a[r], b[r], k, fork);
        ForkEntries(FactsOf(r), a[r], b[r], k, fork);
      }
    }
  }

  /**
   The exact condition for any reorganization, with the fork at or below the rollback height. The index
   holds the orphaned spends between the two and lacks the new branch's from the fork on; it shows the
   chain if and only if these last made the same of every key.
   */
  lemma ForkShowsIff(x: Index, j: Ideal, hw: nat, walked: Histories, resync: Histories, from: u32, fork: nat)
    requires IndexRefines(x, j, hw) && SatSub(hw, RETENTION) <= from && JournalsAre(j, walked)
    requires fork <= from && SameBelow(walked, resync, fork)
    requires (forall r :: r in walked ==> Ascending(walked[r])) && forall r :: r in resync ==> Ascending(resync[r])
    ensures Shows(IndexRolledBack(x, from), resync)
       <==> SameLast(AllFrom(AllBelow(walked, from), fork), AllFrom(resync, fork))
  {
    ResyncShowsIff(x, j, hw, walked, resync, from);
    HeldFromFork(walked, resync, from, fork);
  }

  lemma HeldFromFork(walked: Histories, resync: Histories, from: u32, fork: nat)
    requires fork <= from && SameBelow(walked, resync, fork)
    requires (forall r :: r in walked ==> Ascending(walked[r])) && forall r :: r in resync ==> Ascending(resync[r])
    ensures SameLast(AllBelow(walked, from), resync)
       <==> SameLast(AllFrom(AllBelow(walked, from), fork), AllFrom(resync, fork))
  {
    var held := AllBelow(walked, from);
    forall r | r in walked ensures Ascending(held[r]) && SpendsBelow(held[r], fork) == SpendsBelow(walked[r], fork) {
      BelowAscends(walked[r], from);
      BelowTwice(walked[r], fork, from);
    }
    assert AllBelow(held, fork) == AllBelow(walked, fork);
    SameLastFromFork(held, resync, fork);
  }

  lemma KeptLogs(hs: Histories, from: nat, k: Key)
    requires NothingAtOrAbove(hs, from)
    ensures SlotLog(AllBelow(hs, from), k) == SlotLog(hs, k) && FactLog(AllBelow(hs, from), k) == FactLog(hs, k)
  {
    if k.registry in hs {
      var r, ts := k.registry, hs[k.registry];
      forall t | t in ts && t.height >= from ensures SlotsOf(r)(t) == [] && FactsOf(r)(t) == [] {
        assert !Creates(r, t);
      }
      EntriesKept(SlotsOf(r), ts, k, from);
      EntriesKept(FactsOf(r), ts, k, from);
    }
  }

  /**
   When the rollback height is the fork, the index shows the spends the tips now stand at if and only
   if none of those at or above it creates anything: the resynchronization moves the tips past them
   without replaying them.
   */
  lemma ResyncShowsChainIff(x: Index, j: Ideal, hw: nat, walked: Histories, resync: Histories, from: u32)
    requires IndexRefines(x, j, hw) && SatSub(hw, RETENTION) <= from && JournalsAre(j, walked)
    requires SameBelow(walked, resync, from) && forall r :: r in resync ==> Ascending(resync[r])
    ensures Shows(IndexRolledBack(x, from), resync) <==> NothingAtOrAbove(resync, from)
  {
    if NothingAtOrAbove(resync, from) {
      forall k: Key ensures ShowsAt(IndexRolledBack(x, from), resync, k) {
        RolledBackShows(x, j, hw, walked, from, k);
        LogsBelow(walked, from, k);
        KeptLogs(resync, from, k);
      }
    } else {
      var r, t :| r in resync && t in resync[r] && t.height >= from && Creates(r, t);
      PassedSpendIsMissing(x, j, hw, walked, resync, from, r, t);
    }
  }

  /** And then the logs themselves are the same exactly under that condition. */
  lemma NothingPassedIsSameLogs(walked: Histories, resync: Histories, from: u32)
    requires SameBelow(walked, resync, from) && NothingAtOrAbove(resync, from)
    ensures SameLogs(AllBelow(walked, from), resync)
  {
    forall k: Key
      ensures SlotLog(AllBelow(walked, from), k) == SlotLog(resync, k)
      ensures FactLog(AllBelow(walked, from), k) == FactLog(resync, k)
    {
      KeptLogs(resync, from, k);
    }
  }

  /** The same for a peak of the live loop: its window discipline keeps the rollback within the retention. */
  lemma PeakResyncShowsIff(registries: seq<Bytes32>, coin: Naming, c: Chained, p: ChainPeak)
    requires Tracked(registries, coin, c) && OfChain(registries, coin, c, p) && UpToDate(c)
    requires Issued(c.world.loop, p.ev).Some?
    ensures
      var from := Issued(c.world.loop, p.ev).value;
      && (Shows(IndexRolledBack(c.world.index, from), p.resync) <==> SameLast(AllBelow(c.walked, from), p.resync))
      && (SameBelow(c.walked, p.resync, from) ==>
            (Shows(IndexRolledBack(c.world.index, from), p.resync) <==> NothingAtOrAbove(p.resync, from)))
  {
    var w, from := c.world, Issued(c.world.loop, p.ev).value;
    PeakKeepsDiscipline(w.loop, p.ev, w.hw);
    ResyncShowsIff(w.index, w.ideal, w.hw, c.walked, p.resync, from);
    if SameBelow(c.walked, p.resync, from) {
      forall r | r in p.resync ensures Ascending(p.resync[r]) {
        PrefixAscends(p.resync[r], p.view[r]);
      }
      ResyncShowsChainIff(w.index, w.ideal, w.hw, c.walked, p.resync, from);
    }
  }

  // ---------------------------------------------------------------------------------
  // Re-included spends
  // ---------------------------------------------------------------------------------

  lemma {:induction false} NoneSpentSync(x: Index, tips: seq<Tip>, i: nat, syncs: map<Bytes32, Batch>)
    requires i <= |tips|
    ensures SyncFrom(x, tips, i, {}, syncs) == Sync(x, tips, None)
    decreases |tips| - i
  {
    if i < |tips| {
      NoneSpentSync(x, tips, i + 1, syncs);
    }
  }

  lemma NothingSpentNext(registries: seq<Bytes32>, coin: Naming, c: Chained, p: ChainPeak)
    requires Tracked(registries, coin, c) && CanStep(registries, coin, c, p) && SpentCoins(p.records) == {}
    ensures NextChained(registries, coin, c, p).walked == Start(c, p)
    ensures NextChained(registries, coin, c, p).world.index == AfterRollback(c.world.index, Issued(c.world.loop, p.ev))
  {
    var inp, start := InputOf(registries, coin, c, p), Start(c, p);
    PeakIsProvided(registries, coin, c, p);
    NoneSpentSync(AfterRollback(c.world.index, Issued(c.world.loop, p.ev)), StartTips(c.world, inp), 0, inp.syncs);
    assert Moved(start, p.view, coin, {}) == start;
  }

  /**
   A reorganization whose new branch includes the same registry spends again: the rollback takes what
   they created out of the index, the resynchronized tips are already past them, and it stays out
   although the chain has it as before.
   */
  lemma ReincludedSpendIsLost(registries: seq<Bytes32>, coin: Naming, c: Chained, p: ChainPeak, r: Bytes32,
                              t: Transition)
    requires Tracked(registries, coin, c) && UpToDate(c) && CanStep(registries, coin, c, p)
    requires Issued(c.world.loop, p.ev).Some? && p.resync == c.walked && SpentCoins(p.records) == {}
    requires r in c.walked && t in c.walked[r] && t.height >= Issued(c.world.loop, p.ev).value && Creates(r, t)
    ensures Shows(c.world.index, c.walked)
    ensures NextChained(registries, coin, c, p).walked == c.walked
    ensures !Shows(NextChained(registries, coin, c, p).world.index, c.walked)
  {
    UpToDateShows(c);
    PeakResyncShowsIff(registries, coin, c, p);
    NothingSpentNext(registries, coin, c, p);
  }

  /** A cold start on one spend at height 100, in a block named `orphan`. */
  function Before100(r: Bytes32, coin: Naming, t: Transition, orphan: Hash): Chained {
    Started([r], coin, map[r := [t]], 100, orphan)
  }

  /** Then block 100 is replaced by another, named `hash`, with the same registry spend. */
  function Replaced100(r: Bytes32, coin: Naming, t: Transition, hash: Hash, prev: Hash,
                       blocks: map<u32, Hash>): ChainPeak {
    ChainPeak(PeakEvent(100, Some(Header(hash, prev)), map[100 := hash], blocks), map[r := [t]], map[r := [t]],
              [CoinRecord(coin(r, [t]), false)])
  }

  lemma ReplacedIsServed(r: Bytes32, coin: Naming, t: Transition, orphan: Hash, hash: Hash, prev: Hash,
                         blocks: map<u32, Hash>)
    requires orphan != hash && forall h: u32 :: h <= 100 ==> h in blocks
    ensures
      var l, ev := Loop([Entry(100, orphan)], 100), Replaced100(r, coin, t, hash, prev, blocks).ev;
      Served(l, ev) && Issued(l, ev) == Some(100)
  {
  }

  lemma ReplacedMatches(r: Bytes32, coin: Naming, t: Transition, hash: Hash, prev: Hash, blocks: map<u32, Hash>)
    ensures
      var p := Replaced100(r, coin, t, hash, prev, blocks);
      && Covers(p.resync, [r]) && SpentCoins(p.records) == {}
      && Matching(TipsAt([r], p.resync, coin), p.records)
  {
    var tips := TipsAt([r], map[r := [t]], coin);
    assert tips == [Tip(r, coin(r, [t]))];
    assert TipCoins(tips) == {coin(r, [t])};
  }

  lemma ReplacedIsOfChain(r: Bytes32, coin: Naming, t: Transition, orphan: Hash, hash: Hash, prev: Hash,
                          blocks: map<u32, Hash>)
    requires t.height == 100 && orphan != hash && forall h: u32 :: h <= 100 ==> h in blocks
    ensures
      var c, p := Before100(r, coin, t, orphan), Replaced100(r, coin, t, hash, prev, blocks);
      OfChain([r], coin, c, p) && Issued(c.world.loop, p.ev) == Some(100)
  {
    ReplacedIsServed(r, coin, t, orphan, hash, prev, blocks);
    ReplacedMatches(r, coin, t, hash, prev, blocks);
  }

  lemma StartsTracked(r: Bytes32, coin: Naming, t: Transition, orphan: Hash)
    requires t.height == 100
    ensures Tracked([r], coin, Before100(r, coin, t, orphan)) && UpToDate(Before100(r, coin, t, orphan))
  {
    StartIsSound([r], coin, map[r := [t]], 100, orphan);
  }

  /** The two meet: a reachable state and a peak of its chain at which a creating spend is lost. */
  lemma ReplacedBlockLosesSpend(r: Bytes32, coin: Naming, t: Transition, orphan: Hash, hash: Hash, prev: Hash,
                                blocks: map<u32, Hash>)
    requires t.height == 100 && Creates(r, t) && orphan != hash && forall h: u32 :: h <= 100 ==> h in blocks
    ensures
      var c, p := Before100(r, coin, t, orphan), Replaced100(r, coin, t, hash, prev, blocks);
      && Tracked([r], coin, c) && CanStep([r], coin, c, p)
      && Shows(c.world.index, c.walked)
      && NextChained([r], coin, c, p).walked == c.walked
      && !Shows(NextChained([r], coin, c, p).world.index, c.walked)
  {
    var c, p := Before100(r, coin, t, orphan), Replaced100(r, coin, t, hash, prev, blocks);
    StartsTracked(r, coin, t, orphan);
    ReplacedIsOfChain(r, coin, t, orphan, hash, prev, blocks);
    ReplacedMatches(r, coin, t, hash, prev, blocks);
    PeakKeepsTracked([r], coin, c, p);
    assert t in c.walked[r];
    ReincludedSpendIsLost([r], coin, c, p, r, t);
  }

  // ---------------------------------------------------------------------------------
  // Orphaned spends below the rollback height
  // ---------------------------------------------------------------------------------

  /** A start over a window of several blocks. */
  function StartedOver(registries: seq<Bytes32>, coin: Naming, hs: Histories, l: Loop, hw: nat): Chained
    requires Covers(hs, registries)
  {
    assert forall r :: r in registries ==> r in hs;
    var world := World(l, Startup(registries, hs), TipsAt(registries, hs, coin), StartupJournals(registries, hs), hw);
    Chained(world, hs, hs)
  }

  lemma StartedOverIsSound(registries: seq<Bytes32>, coin: Naming, hs: Histories, l: Loop, hw: u32)
    requires Distinct(registries) && Covers(hs, registries) && Timely(hs, hw) && Disciplined(l, hw)
    ensures Tracked(registries, coin, StartedOver(registries, coin, hs, l, hw))
    ensures UpToDate(StartedOver(registries, coin, hs, l, hw))
  {
    StartupRefines(registries, hs, hw);
    assert Restricted(hs, registries) == hs;
  }

  /** A spend and the same spend included one block lower on another branch. */
  lemma LowerSpendDiffers(r: Bytes32, t: Transition, u: Transition, from: u32)
    requires u.height < t.height < from && Creates(r, u) && u == t.(height := u.height)
    ensures !SameLast(AllBelow(map[r := [t]], from), map[r := [u]])
  {
    var a, b: Histories := map[r := [t]], map[r := [u]];
    OnlyBelow(t, from);
    assert AllBelow(a, from) == a;
    if SlotsOf(r)(u) != [] {
      SlotItemsKeys(r, Created(u.logs), u.parents);
      var k := SlotsOf(r)(u)[0].0;
      assert SlotsOf(r)(t) == SlotsOf(r)(u);
      OnlyEntries(SlotsOf(r), t, u, k);
      assert !SameLastAt(a, b, k);
    } else {
      FactsKeys(r, u.logs);
      var k := FactsOf(r)(u)[0].0;
      assert FactsOf(r)(t) == FactsOf(r)(u);
      OnlyEntries(FactsOf(r), t, u, k);
      assert !SameLastAt(a, b, k);
    }
  }

  lemma OnlyBelow(t: Transition, from: u32)
    requires t.height < from
    ensures SpendsBelow([t], from) == [t]
  {
    assert |[t][..0]| == 0;
  }

  lemma OnlyEntries<T>(f: Projection<T>, t: Transition, u: Transition, k: Key)
    requires f(t) == f(u) && t.height != u.height && exists i :: 0 <= i < |f(u)| && f(u)[i].0 == k
    ensures LastOf(Entries(f, [t], k)) != LastOf(Entries(f, [u], k))
  {
    OneEntry(f, t, k);
    OneEntry(f, u, k);
    PickedIs(f(t), k, t.height);
    PickedIs(f(u), k, u.height);
  }

  /** A peak whose chain has one spend of one registry, with nothing more to sync. */
  function LonePeak(r: Bytes32, coin: Naming, u: Transition, ev: PeakEvent): ChainPeak {
    ChainPeak(ev, map[r := [u]], map[r := [u]], [CoinRecord(coin(r, [u]), false)])
  }

  lemma LoneMatches(r: Bytes32, coin: Naming, u: Transition, ev: PeakEvent)
    ensures
      var p := LonePeak(r, coin, u, ev);
      Covers(p.resync, [r]) && Matching(TipsAt([r], p.resync, coin), p.records)
  {
    var tips := TipsAt([r], map[r := [u]], coin);
    assert tips == [Tip(r, coin(r, [u]))];
    assert TipCoins(tips) == {coin(r, [u])};
  }

  lemma LoneIsOfChain(r: Bytes32, coin: Naming, l: Loop, hw: u32, ev: PeakEvent, t: Transition, u: Transition)
    requires Disciplined(l, hw) && Served(l, ev) && Issued(l, ev).Some? && t.height <= hw && u.height <= hw
    ensures
      var c, p := StartedOver([r], coin, map[r := [t]], l, hw), LonePeak(r, coin, u, ev);
      Tracked([r], coin, c) && UpToDate(c) && OfChain([r], coin, c, p)
  {
    var c, p := StartedOver([r], coin, map[r := [t]], l, hw), LonePeak(r, coin, u, ev);
    StartedOverIsSound([r], coin, map[r := [t]], l, hw);
    LoneMatches(r, coin, u, ev);
    assert Grows(p.resync, p.view) && Start(c, p) == p.resync;
    assert Ahead(Surviving(c.replayed, Issued(l, ev)), p.resync, p.view);
    assert Timely(p.view, Max(hw, ev.tip));
  }

  /**
   A rollback that starts above the fork keeps what an orphaned spend created: nothing creating is passed
   by the resynchronization, and the index still differs from the chain.
   */
  lemma OrphanIsKept(r: Bytes32, coin: Naming, l: Loop, hw: u32, ev: PeakEvent, t: Transition, u: Transition)
    requires Disciplined(l, hw) && Served(l, ev) && Issued(l, ev).Some? && t.height <= hw
    requires u.height < t.height < Issued(l, ev).value && Creates(r, u) && u == t.(height := u.height)
    ensures
      var c, p := StartedOver([r], coin, map[r := [t]], l, hw), LonePeak(r, coin, u, ev);
      && Tracked([r], coin, c) && UpToDate(c) && OfChain([r], coin, c, p)
      && NothingAtOrAbove(p.resync, Issued(l, ev).value)
      && !Shows(IndexRolledBack(c.world.index, Issued(l, ev).value), p.resync)
  {
    LoneIsOfChain(r, coin, l, hw, ev, t, u);
    LowerSpendDiffers(r, t, u, Issued(l, ev).value);
    PeakResyncShowsIff([r], coin, StartedOver([r], coin, map[r := [t]], l, hw), LonePeak(r, coin, u, ev));
  }

  /** Blocks 100 and 101 are followed; then the node's tip is block 100 of another branch. */
  lemma RewoundTipKeepsOrphan(r: Bytes32, coin: Naming, t: Transition, a: Hash, b: Hash, other: Hash, prev: Hash,
                              blocks: map<u32, Hash>)
    requires t.height == 100 && Creates(r, t) && forall h: u32 :: h <= 100 ==> h in blocks
    ensures
      var l := Loop([Entry(100, a), Entry(101, b)], 101);
      var ev := PeakEvent(100, Some(Header(other, prev)), map[100 := other], blocks);
      var c, p := StartedOver([r], coin, map[r := [t]], l, 101), LonePeak(r, coin, t.(height := 99), ev);
      && Issued(l, ev) == Some(101)
      && Tracked([r], coin, c) && UpToDate(c) && OfChain([r], coin, c, p)
      && NothingAtOrAbove(p.resync, 101) && !Shows(IndexRolledBack(c.world.index, 101), p.resync)
  {
    var l := Loop([Entry(100, a), Entry(101, b)], 101);
    var ev := PeakEvent(100, Some(Header(other, prev)), map[100 := other], blocks);
    assert Disciplined(l, 101) && Served(l, ev) && Issued(l, ev) == Some(101);
    OrphanIsKept(r, coin, l, 101, ev, t, t.(height := 99));
  }

  /** Only block 100 is remembered; then a branch that forked below it replaces it. */
  lemma DeepReorgKeepsOrphan(r: Bytes32, coin: Naming, t: Transition, a: Hash, other: Hash, prev: Hash,
                             blocks: map<u32, Hash>)
    requires t.height == 99 && Creates(r, t) && a != other && forall h: u32 :: h <= 100 ==> h in blocks
    ensures
      var l := Loop([Entry(100, a)], 100);
      var ev := PeakEvent(100, Some(Header(other, prev)), map[100 := other], blocks);
      var c, p := StartedOver([r], coin, map[r := [t]], l, 100), LonePeak(r, coin, t.(height := 98), ev);
      && Issued(l, ev) == Some(100)
      && Tracked([r], coin, c) && UpToDate(c) && OfChain([r], coin, c, p)
      && NothingAtOrAbove(p.resync, 100) && !Shows(IndexRolledBack(c.world.index, 100), p.resync)
  {
    var l := Loop([Entry(100, a)], 100);
    var ev := PeakEvent(100, Some(Header(other, prev)), map[100 := other], blocks);
    assert Disciplined(l, 100) && Served(l, ev) && Issued(l, ev) == Some(100);
    OrphanIsKept(r, coin, l, 100, ev, t, t.(height := 98));
  }
}
