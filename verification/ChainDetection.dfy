/**
 Runs in which block hashes fix the registries' spends: the hash scan then finds the fork, and the
 index shows exactly the chain as long as no spend is included again above it.
 */
module ChainDetection {
  import opened Common
  import opened Registry
  import opened Versions
  import opened PeakWindow
  import opened ForkDetection
  import opened Indexer
  import opened ListenLoop
  import opened ChainHistory
  import opened ChainRuns
  import opened ChainReorgs

  /** The registries' spends up to and including a block, which its hash commits to. */
  type Past = Hash -> Histories

  ghost predicate WindowFixes(w: seq<Peak>, walked: Histories, past: Past) {
    forall i {:trigger w[i]} :: 0 <= i < |w| ==> AllBelow(walked, w[i].height + 1) == past(w[i].state)
  }

  ghost predicate ChainFixes(canon: map<u32, Hash>, tip: u32, view: Histories, past: Past) {
    forall h: u32 :: h <= tip ==> FixedAt(canon, h, view, past)
  }

  ghost predicate FixedAt(canon: map<u32, Hash>, h: u32, view: Histories, past: Past) {
    h in canon && AllBelow(view, h + 1) == past(canon[h])
  }

  /** A rollback height found by the scan above the bottom of the window is a height below which both branches agree. */
  lemma DetectedForkAgrees(l: Loop, ev: PeakEvent, hw: nat, canon: map<u32, Hash>, parent: Hash -> Hash,
                           walked: Histories, resync: Histories, past: Past)
    requires Disciplined(l, hw) && Served(l, ev) && Linked(l.window, parent) && Consistent(ev, canon, parent)
    requires l.last <= ev.tip && WindowFixes(l.window, walked, past) && ChainFixes(canon, ev.tip, resync, past)
    requires Issued(l, ev).Some? && l.window[0].height < Issued(l, ev).value
    ensures SameBelow(walked, resync, Issued(l, ev).value)
  {
    var i := EntryBelowFork(l, ev, hw, canon, parent);
    FixedEntryAgrees(l.window, i, canon, ev.tip, walked, resync, past, Issued(l, ev).value);
  }

  lemma FixedEntryAgrees(w: seq<Peak>, i: nat, canon: map<u32, Hash>, tip: u32, walked: Histories, resync: Histories,
                         past: Past, from: nat)
    requires i < |w| && Canonical(w[i], canon) && w[i].height <= tip && w[i].height + 1 == from
    requires WindowFixes(w, walked, past) && ChainFixes(canon, tip, resync, past)
    ensures SameBelow(walked, resync, from)
  {
    assert FixedAt(canon, w[i].height, resync, past);
  }

  /** The window's entry just below a found fork is canonical. */
  lemma EntryBelowFork(l: Loop, ev: PeakEvent, hw: nat, canon: map<u32, Hash>, parent: Hash -> Hash) returns (i: nat)
    requires Disciplined(l, hw) && Served(l, ev) && Linked(l.window, parent) && Consistent(ev, canon, parent)
    requires l.last <= ev.tip && Issued(l, ev).Some? && l.window[0].height < Issued(l, ev).value
    ensures i < |l.window| && l.window[i].height + 1 == Issued(l, ev).value
    ensures Canonical(l.window[i], canon) && l.window[i].height <= ev.tip
  {
    var w := l.window;
    RollbackIsForkHeight(w, canon, ev.tip, parent);
    var k :| 0 <= k < |w| && w[k].height == Issued(l, ev).value;
    assert w[k].height == w[0].height + k && w[|w| - 1].height == w[0].height + (|w| - 1);
    i := k - 1;
    assert w[i].height == w[0].height + i;
  }

  lemma SpendsAllBelow(ts: seq<Transition>, h: nat)
    requires forall t :: t in ts ==> t.height < h
    ensures SpendsBelow(ts, h) == ts
  {
    if ts != [] {
      assert ts[|ts| - 1] in ts;
      SpendsAllBelow(ts[..|ts| - 1], h);
    }
  }

  lemma {:induction false} BelowIsPrefix(ts: seq<Transition>, h: nat)
    requires Ascending(ts)
    ensures SpendsBelow(ts, h) <= ts
  {
    SpendsSplit(ts, h);
  }

  /** When no fork is found, the walked spends are a prefix of the chain's. */
  lemma UndetectedGrows(l: Loop, ev: PeakEvent, hw: nat, canon: map<u32, Hash>, parent: Hash -> Hash,
                        walked: Histories, view: Histories, past: Past)
    requires Disciplined(l, hw) && Served(l, ev) && Linked(l.window, parent) && Consistent(ev, canon, parent)
    requires l.last <= ev.tip && WindowFixes(l.window, walked, past) && ChainFixes(canon, ev.tip, view, past)
    requires Issued(l, ev).None? && Timely(walked, l.last) && Timely(view, ev.tip)
    ensures Grows(walked, view)
  {
    var top := l.window[|l.window| - 1];
    RollbackIsForkHeight(l.window, canon, ev.tip, parent);
    assert Canonical(top, canon) && FixedAt(canon, top.height, view, past);
    var h := l.last + 1;
    assert AllBelow(walked, h) == AllBelow(view, h);
    assert walked.Keys == AllBelow(walked, h).Keys == AllBelow(view, h).Keys == view.Keys;
    forall r | r in walked ensures walked[r] <= view[r] {
      SpendsAllBelow(walked[r], h);
      BelowIsPrefix(view[r], h);
      assert AllBelow(walked, h)[r] == AllBelow(view, h)[r];
    }
  }

  // ---------------------------------------------------------------------------------
  // Runs
  // ---------------------------------------------------------------------------------

  ghost predicate Within(a: Histories, b: Histories) {
    a.Keys == b.Keys && forall r :: r in a ==> forall t :: t in a[r] ==> t in b[r]
  }

  /** A listener whose window's hashes fix what its tips have walked, all of which the index has. */
  ghost predicate InStep(registries: seq<Bytes32>, coin: Naming, c: Chained, parent: Hash -> Hash, past: Past) {
    && Tracked(registries, coin, c) && UpToDate(c)
    && Linked(c.world.loop.window, parent) && WindowFixes(c.world.loop.window, c.walked, past)
    && Timely(c.walked, c.world.loop.last) && Within(c.replayed, c.walked)
  }

  /**
   A peak seen from one snapshot of the chain with its tip not rewound: the spends it presents are
   those its blocks fix, and a registry's tip is reported unspent only where its chain ends.
   */
  ghost predicate Snapshot(registries: seq<Bytes32>, coin: Naming, c: Chained, p: ChainPeak, canon: map<u32, Hash>,
                           parent: Hash -> Hash, past: Past)
  {
    && Served(c.world.loop, p.ev) && Consistent(p.ev, canon, parent) && c.world.loop.last <= p.ev.tip
    && Covers(p.view, registries) && p.resync == p.view
    && Timely(p.view, p.ev.tip) && ChainFixes(canon, p.ev.tip, p.view, past)
    && (forall r :: r in Start(c, p) && r in p.view && coin(r, Start(c, p)[r]) !in SpentCoins(p.records)
          ==> Start(c, p)[r] == p.view[r])
    && (Covers(Start(c, p), registries) ==> Matching(TipsAt(registries, Start(c, p), coin), p.records))
  }

  /** Any reorganization starts above the bottom of the window, and no creating spend is above its height again. */
  ghost predicate Harmless(c: Chained, p: ChainPeak) {
    Issued(c.world.loop, p.ev).Some? ==>
      && c.world.loop.window != [] && c.world.loop.window[0].height < Issued(c.world.loop, p.ev).value
      && NothingAtOrAbove(p.resync, Issued(c.world.loop, p.ev).value)
  }

  lemma WithinIsAhead(held: Histories, start: Histories, view: Histories, height: nat)
    requires Within(held, start) && Grows(start, view) && Timely(view, height)
    ensures Ahead(held, start, view)
  {
    forall r | r in start && |start[r]| < |view[r]| ensures AheadAt(held[r], view[r][|start[r]|]) {
      forall t | t in held[r] ensures t.height <= view[r][|start[r]|].height {
        assert t in start[r];
        var i :| 0 <= i < |start[r]| && start[r][i] == t;
        assert view[r][i] == t;
      }
    }
  }

  lemma SnapshotIsOfChain(registries: seq<Bytes32>, coin: Naming, c: Chained, p: ChainPeak, canon: map<u32, Hash>,
                          parent: Hash -> Hash, past: Past)
    requires InStep(registries, coin, c, parent, past) && Snapshot(registries, coin, c, p, canon, parent, past)
    ensures OfChain(registries, coin, c, p) && CanStep(registries, coin, c, p)
  {
    var l := c.world.loop;
    if Issued(l, p.ev).None? {
      UndetectedGrows(l, p.ev, c.world.hw, canon, parent, c.walked, p.view, past);
      WithinIsAhead(c.replayed, c.walked, p.view, p.ev.tip);
    }
  }

  lemma HarmlessLosesNothing(registries: seq<Bytes32>, coin: Naming, c: Chained, p: ChainPeak, canon: map<u32, Hash>,
                             parent: Hash -> Hash, past: Past)
    requires InStep(registries, coin, c, parent, past) && Snapshot(registries, coin, c, p, canon, parent, past)
    requires Harmless(c, p)
    ensures LosesNothing(c, p)
    ensures Issued(c.world.loop, p.ev).Some? ==> SameBelow(c.walked, p.resync, Issued(c.world.loop, p.ev).value)
  {
    var l := c.world.loop;
    if Issued(l, p.ev).Some? {
      DetectedForkAgrees(l, p.ev, c.world.hw, canon, parent, c.walked, p.resync, past);
      NothingPassedIsSameLogs(c.walked, p.resync, Issued(l, p.ev).value);
    }
  }

  lemma SurvivingWithin(replayed: Histories, walked: Histories, resync: Histories, from: nat)
    requires Within(replayed, walked) && SameBelow(walked, resync, from)
    ensures Within(AllBelow(replayed, from), resync)
  {
    assert walked.Keys == AllBelow(walked, from).Keys == AllBelow(resync, from).Keys == resync.Keys;
    forall r, t | r in replayed && t in SpendsBelow(replayed[r], from) ensures t in resync[r] {
      SpendsBelowAre(replayed[r], from, t);
      SpendsBelowAre(walked[r], from, t);
      SpendsBelowAre(resync[r], from, t);
      assert AllBelow(walked, from)[r] == AllBelow(resync, from)[r];
    }
  }

  lemma ExtendedWithin(hs: Histories, start: Histories, view: Histories, coin: Naming, spent: set<Bytes32>)
    requires Grows(start, view) && Within(hs, start)
    ensures Within(Extended(hs, start, view, coin, spent), Moved(start, view, coin, spent))
  {
    forall r, t | r in hs && t in Extended(hs, start, view, coin, spent)[r]
      ensures t in Moved(start, view, coin, spent)[r]
    {
      assert view[r] == start[r] + view[r][|start[r]|..];
    }
  }

  lemma MovesToView(start: Histories, view: Histories, coin: Naming, spent: set<Bytes32>)
    requires Grows(start, view) && forall r :: r in start && coin(r, start[r]) !in spent ==> start[r] == view[r]
    ensures Moved(start, view, coin, spent) == view
  {
  }

  lemma CanonicalFixes(w: seq<Peak>, canon: map<u32, Hash>, tip: u32, view: Histories, past: Past)
    requires AllCanonical(w, canon) && ChainFixes(canon, tip, view, past)
    requires Contiguous(w) && w != [] && w[|w| - 1].height == tip
    ensures WindowFixes(w, view, past)
  {
    forall i | 0 <= i < |w| ensures AllBelow(view, w[i].height + 1) == past(w[i].state) {
      assert w[i].height == w[0].height + i && w[|w| - 1].height == w[0].height + (|w| - 1);
      assert Canonical(w[i], canon) && FixedAt(canon, w[i].height, view, past);
    }
  }

  /** A harmless snapshot keeps the listener in step and leaves the index showing exactly the chain it presents. */
  lemma SnapshotKeepsStep(registries: seq<Bytes32>, coin: Naming, c: Chained, p: ChainPeak, canon: map<u32, Hash>,
                          parent: Hash -> Hash, past: Past)
    requires InStep(registries, coin, c, parent, past) && Snapshot(registries, coin, c, p, canon, parent, past)
    requires Harmless(c, p)
    ensures CanStep(registries, coin, c, p)
    ensures
      var next := NextChained(registries, coin, c, p);
      && InStep(registries, coin, next, parent, past)
      && next.walked == p.view && Shows(next.world.index, p.view)
  {
    var l, start, spent := c.world.loop, Start(c, p), SpentCoins(p.records);
    SnapshotIsOfChain(registries, coin, c, p, canon, parent, past);
    HarmlessLosesNothing(registries, coin, c, p, canon, parent, past);
    PeakKeepsTracked(registries, coin, c, p);
    PeakStaysUpToDate(registries, coin, c, p);
    MovesToView(start, p.view, coin, spent);
    NextWindowFixes(registries, coin, c, p, canon, parent, past);
    NextIsWithin(registries, coin, c, p);
    UpToDateShows(NextChained(registries, coin, c, p));
  }

  lemma NextIsWithin(registries: seq<Bytes32>, coin: Naming, c: Chained, p: ChainPeak)
    requires CanStep(registries, coin, c, p) && Within(c.replayed, c.walked)
    requires Issued(c.world.loop, p.ev).Some? ==> SameBelow(c.walked, p.resync, Issued(c.world.loop, p.ev).value)
    ensures Within(NextChained(registries, coin, c, p).replayed, NextChained(registries, coin, c, p).walked)
  {
    var from := Issued(c.world.loop, p.ev);
    if from.Some? {
      SurvivingWithin(c.replayed, c.walked, p.resync, from.value);
    }
    ExtendedWithin(Surviving(c.replayed, from), Start(c, p), p.view, coin, SpentCoins(p.records));
  }

  lemma NextWindowFixes(registries: seq<Bytes32>, coin: Naming, c: Chained, p: ChainPeak, canon: map<u32, Hash>,
                        parent: Hash -> Hash, past: Past)
    requires InStep(registries, coin, c, parent, past) && Snapshot(registries, coin, c, p, canon, parent, past)
    ensures Linked(AfterPeak(c.world.loop, p.ev).window, parent)
    ensures WindowFixes(AfterPeak(c.world.loop, p.ev).window, p.view, past)
    ensures AfterPeak(c.world.loop, p.ev).last == p.ev.tip
  {
    var l := c.world.loop;
    PeakKeepsDiscipline(l, p.ev, c.world.hw);
    PeakRestoresCanonicalWindow(l, p.ev, c.world.hw, canon, parent);
    CanonicalFixes(AfterPeak(l, p.ev).window, canon, p.ev.tip, p.view, past);
  }

  /** Peaks of a run, each with the chain the node reports then. */
  datatype Sighting = Sighting(peak: ChainPeak, canon: map<u32, Hash>)

  ghost function AfterSightings(registries: seq<Bytes32>, coin: Naming, c: Chained, ss: seq<Sighting>): Chained {
    if ss == [] then c
    else
      var before := AfterSightings(registries, coin, c, ss[..|ss| - 1]);
      if CanStep(registries, coin, before, ss[|ss| - 1].peak)
      then NextChained(registries, coin, before, ss[|ss| - 1].peak) else before
  }

  ghost predicate AllHarmless(registries: seq<Bytes32>, coin: Naming, c: Chained, ss: seq<Sighting>,
                              parent: Hash -> Hash, past: Past)
  {
    ss == []
    || (var before, s := AfterSightings(registries, coin, c, ss[..|ss| - 1]), ss[|ss| - 1];
        && AllHarmless(registries, coin, c, ss[..|ss| - 1], parent, past)
        && Snapshot(registries, coin, before, s.peak, s.canon, parent, past) && Harmless(before, s.peak))
  }

  /**
   Over every run of harmless snapshots, with any number of reorganizations in it, the index shows
   exactly the chain of the last one: nothing is assumed of how the branches relate, the hash scan and
   the hashes' commitments supply it.
   */
  lemma {:induction false} DetectedRunShowsChain(registries: seq<Bytes32>, coin: Naming, c: Chained, ss: seq<Sighting>,
                                                 parent: Hash -> Hash, past: Past)
    requires InStep(registries, coin, c, parent, past) && AllHarmless(registries, coin, c, ss, parent, past)
    ensures
      var end := AfterSightings(registries, coin, c, ss);
      && InStep(registries, coin, end, parent, past) && Shows(end.world.index, end.walked)
      && (ss != [] ==> end.walked == ss[|ss| - 1].peak.view)
  {
    if ss == [] {
      UpToDateShows(c);
    } else {
      var before, s := AfterSightings(registries, coin, c, ss[..|ss| - 1]), ss[|ss| - 1];
      DetectedRunShowsChain(registries, coin, c, ss[..|ss| - 1], parent, past);
      SnapshotKeepsStep(registries, coin, before, s.peak, s.canon, parent, past);
    }
  }

  /** A cold start at a block that fixes the replayed histories is in step. */
  lemma StartIsInStep(registries: seq<Bytes32>, coin: Naming, hs: Histories, tip: u32, hash: Hash,
                      parent: Hash -> Hash, past: Past)
    requires Distinct(registries) && Covers(hs, registries) && Timely(hs, tip) && 0 < tip && past(hash) == hs
    ensures InStep(registries, coin, Started(registries, coin, hs, tip, hash), parent, past)
  {
    StartIsSound(registries, coin, hs, tip, hash);
    WholeBelow(hs, tip);
    var w := [Entry(tip, hash)];
    assert Linked(w, parent) && WindowFixes(w, hs, past);
  }

  lemma WholeBelow(hs: Histories, tip: u32)
    requires Timely(hs, tip)
    ensures AllBelow(hs, tip + 1) == hs
  {
    forall r | r in hs ensures SpendsBelow(hs[r], tip + 1) == hs[r] {
      SpendsAllBelow(hs[r], tip + 1);
    }
  }
}
