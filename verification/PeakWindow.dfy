/**
 The live loop's window of recent peaks: how a chain reorganization is found, which height
 the index is rolled back to, and how the window follows the chain afterwards.
 */
module PeakWindow {
  import opened Common
  import opened Versions

  /** Block header hashes, compared only for equality. */
  type Hash = int

  /** One remembered peak is an entry whose state is the header hash at that height. */
  type Peak = Entry<Hash>

  const WINDOW: nat := 32

  datatype Header = Header(hash: Hash, prevHash: Hash)

  /**
   What one peak notification lets the loop see: the tip, the tip's header if the node has it,
   the node's answers while scanning for a fork and its answers while following blocks.
   */
  datatype PeakEvent = PeakEvent(tip: u32, header: Option<Header>, hashes: map<u32, Hash>, blocks: map<u32, Hash>)

  datatype Loop = Loop(window: seq<Peak>, last: u32)

  // ---------------------------------------------------------------------------------
  // Finding the fork
  // ---------------------------------------------------------------------------------

  /** First remembered height whose hash the node contradicts; a missing answer ends the scan. */
  function FirstFork(stored: seq<Peak>, hashAt: map<u32, Hash>): Option<u32> {
    if stored == [] || stored[0].height !in hashAt then None
    else if hashAt[stored[0].height] != stored[0].state then Some(stored[0].height)
    else FirstFork(stored[1..], hashAt)
  }

  function RollbackFrom(stored: seq<Peak>, tip: u32, prevHash: Hash, hashAt: map<u32, Hash>): Option<u32> {
    if stored == [] then None
    else
      var top := stored[|stored| - 1];
      if tip < top.height then Some(SatAdd32(tip, 1))
      else if tip == SatAdd32(top.height, 1) && prevHash == top.state then None
      else FirstFork(stored, hashAt)
  }

  method ReorgRollbackFrom(stored: seq<Peak>, newHeight: u32, newPrevHash: Hash, hashAt: map<u32, Hash>)
    returns (from: Option<u32>)
    ensures from == RollbackFrom(stored, newHeight, newPrevHash, hashAt)
  {
    if stored == [] {
      return None;
    }
    var top := stored[|stored| - 1];
    if newHeight < top.height {
      return Some(SatAdd32(newHeight, 1));
    }
    if newHeight == SatAdd32(top.height, 1) && newPrevHash == top.state {
      return None;
    }
    for i := 0 to |stored|
      invariant FirstFork(stored, hashAt) == FirstFork(stored[i..], hashAt)
    {
      var p := stored[i];
      assert stored[i..][1..] == stored[i + 1..];
      if p.height !in hashAt {
        break;
      } else if hashAt[p.height] != p.state {
        return Some(p.height);
      }
    }
    return None;
  }

  /** Entry `k` is the first contradicted one, with an answer for it and for every earlier entry. */
  ghost predicate ContradictedAt(stored: seq<Peak>, hashAt: map<u32, Hash>, k: int) {
    && 0 <= k < |stored|
    && stored[k].height in hashAt && hashAt[stored[k].height] != stored[k].state
    && forall i :: 0 <= i < k ==> Confirmed(stored[i], hashAt)
  }

  ghost predicate Confirmed(p: Peak, hashAt: map<u32, Hash>) {
    p.height in hashAt && hashAt[p.height] == p.state
  }

  /** A fork is found exactly at an answered contradiction that only confirmed entries precede. */
  lemma {:induction false} ScanFindsIff(stored: seq<Peak>, hashAt: map<u32, Hash>, h: u32)
    ensures FirstFork(stored, hashAt) == Some(h)
       <==> exists k :: ContradictedAt(stored, hashAt, k) && stored[k].height == h
  {
    if stored != [] && Confirmed(stored[0], hashAt) {
      var rest := stored[1..];
      ScanFindsIff(rest, hashAt, h);
      if k :| ContradictedAt(rest, hashAt, k) && rest[k].height == h {
        assert ContradictedAt(stored, hashAt, k + 1);
      }
      if k :| ContradictedAt(stored, hashAt, k) && stored[k].height == h {
        assert ContradictedAt(rest, hashAt, k - 1);
      }
    } else if stored != [] && stored[0].height in hashAt {
      assert ContradictedAt(stored, hashAt, 0);
    }
  }

  /** A missing answer ahead of any contradiction is no reorganization. */
  lemma MissedAnswerIsNoFork(stored: seq<Peak>, hashAt: map<u32, Hash>, m: nat)
    requires m < |stored| && stored[m].height !in hashAt
    requires forall i :: 0 <= i < m ==> Confirmed(stored[i], hashAt)
    ensures FirstFork(stored, hashAt) == None
  {
    if FirstFork(stored, hashAt).Some? {
      ScanFindsIff(stored, hashAt, FirstFork(stored, hashAt).value);
    }
  }

  /**
   With the tip's header known, a rollback is issued for exactly two reasons: the tip is below the window's
   top, and everything above it goes; or it neither is nor extends the top, and an answer contradicts the
   entry at that height.
   */
  lemma RollbackReasonIff(l: Loop, ev: PeakEvent, from: u32)
    ensures Issued(l, ev) == Some(from) <==>
      ev.header.Some? && l.window != [] &&
      (var top := l.window[|l.window| - 1];
       || (ev.tip < top.height && from == ev.tip + 1)
       || (top.height <= ev.tip && !(ev.tip == SatAdd32(top.height, 1) && ev.header.value.prevHash == top.state)
           && exists k :: ContradictedAt(l.window, ev.hashes, k) && l.window[k].height == from))
  {
    ScanFindsIff(l.window, ev.hashes, from);
  }

  /** The scan asks only about remembered heights. */
  lemma {:induction false} ForkReadsWindow(stored: seq<Peak>, a: map<u32, Hash>, b: map<u32, Hash>)
    requires forall p :: p in stored ==>
      (p.height in a <==> p.height in b) && (p.height in a ==> a[p.height] == b[p.height])
    ensures FirstFork(stored, a) == FirstFork(stored, b)
  {
    if stored != [] {
      assert stored[0] in stored;
      ForkReadsWindow(stored[1..], a, b);
    }
  }

  // ---------------------------------------------------------------------------------
  // One peak
  // ---------------------------------------------------------------------------------

  function Issued(l: Loop, ev: PeakEvent): Option<u32> {
    if ev.header.None? then None
    else RollbackFrom(l.window, ev.tip, ev.header.value.prevHash, ev.hashes)
  }

  function Rewound(l: Loop, from: u32): Loop {
    var kept := Below(l.window, from);
    Loop(kept, if kept == [] then SatSub(from, 1) else kept[|kept| - 1].height)
  }

  function AfterDetect(l: Loop, ev: PeakEvent): Loop {
    match Issued(l, ev)
    case None => l
    case Some(from) => Rewound(l, from)
  }

  /** The blocks in `[start, tip]` for which the node has a record, in order. */
  function Followed(start: nat, tip: nat, blocks: map<u32, Hash>): seq<Peak>
    requires tip <= MAX_U32
    decreases tip + 1 - start
  {
    if start > tip then []
    else if start in blocks then [Entry(start, blocks[start])] + Followed(start + 1, tip, blocks)
    else Followed(start + 1, tip, blocks)
  }

  function Absorb(l: Loop, followed: seq<Peak>): Loop
    decreases |followed|
  {
    if followed == [] then l
    else
      var p := followed[0];
      Absorb(Loop(Below(l.window, p.height) + [p], p.height), followed[1..])
  }

  function Trim(w: seq<Peak>): seq<Peak> {
    if |w| > WINDOW then w[|w| - WINDOW..] else w
  }

  function AfterFollow(l: Loop, ev: PeakEvent): Loop {
    var m := Absorb(l, Followed(SatAdd32(l.last, 1), ev.tip, ev.blocks));
    var n := Loop(Trim(m.window), m.last);
    if ev.header.Some? && (n.window == [] || n.window[|n.window| - 1].height != ev.tip)
    then Loop(Trim(Below(n.window, ev.tip) + [Entry(ev.tip, ev.header.value.hash)]), n.last)
    else n
  }

  function AfterPeak(l: Loop, ev: PeakEvent): Loop {
    AfterFollow(AfterDetect(l, ev), ev)
  }

  class PeakLoop {
    var recentPeaks: seq<Peak>
    var lastFollowedHeight: u32

    function State(): Loop
      reads this
    {
      Loop(recentPeaks, lastFollowedHeight)
    }

    /** The window starts at the tip seen after catch-up, if that tip's record is available. */
    constructor (tip: u32, header: Option<Header>)
      ensures State() == Loop(if header.Some? then [Entry(tip, header.value.hash)] else [], tip)
    {
      lastFollowedHeight := tip;
      recentPeaks := if header.Some? then [Entry(tip, header.value.hash)] else [];
    }

    method Retain(h: u32)
      modifies this`recentPeaks
      ensures recentPeaks == Below(old(recentPeaks), h)
    {
      var was := recentPeaks;
      var kept: seq<Peak> := [];
      for i := 0 to |was|
        invariant kept == Below(was[..i], h)
      {
        assert was[..i + 1] == was[..i] + [was[i]];
        BelowSnoc(was[..i], was[i], h);
        if was[i].height < h {
          kept := kept + [was[i]];
        }
      }
      assert was[..|was|] == was;
      recentPeaks := kept;
    }

    /** Answers needed by the scan; none when the tip extends the window by one block. */
    method HashCache(ev: PeakEvent, prevHash: Hash) returns (cache: map<u32, Hash>)
      ensures RollbackFrom(recentPeaks, ev.tip, prevHash, cache)
           == RollbackFrom(recentPeaks, ev.tip, prevHash, ev.hashes)
    {
      cache := map[];
      if recentPeaks == [] {
        return;
      }
      var top := recentPeaks[|recentPeaks| - 1];
      if ev.tip != SatAdd32(top.height, 1) || prevHash != top.state {
        for i := 0 to |recentPeaks|
          invariant forall h :: h in cache ==> h in ev.hashes && cache[h] == ev.hashes[h]
          invariant forall j :: 0 <= j < i && recentPeaks[j].height in ev.hashes ==> recentPeaks[j].height in cache
        {
          var h := recentPeaks[i].height;
          if h in ev.hashes {
            cache := cache[h := ev.hashes[h]];
          }
        }
        ForkReadsWindow(recentPeaks, cache, ev.hashes);
      }
    }

    method DetectReorg(ev: PeakEvent) returns (from: Option<u32>)
      modifies this
      ensures from == Issued(old(State()), ev)
      ensures State() == AfterDetect(old(State()), ev)
    {
      from := None;
      if ev.header.Some? {
        var cache := HashCache(ev, ev.header.value.prevHash);
        from := ReorgRollbackFrom(recentPeaks, ev.tip, ev.header.value.prevHash, cache);
        if from.Some? {
          Retain(from.value);
          lastFollowedHeight :=
            if recentPeaks == [] then SatSub(from.value, 1) else recentPeaks[|recentPeaks| - 1].height;
        }
      }
    }

    method Shrink()
      modifies this`recentPeaks
      ensures recentPeaks == Trim(old(recentPeaks))
    {
      ghost var was := recentPeaks;
      while |recentPeaks| > WINDOW
        invariant |recentPeaks| <= |was| && recentPeaks == was[|was| - |recentPeaks|..]
        invariant |was| <= WINDOW ==> |recentPeaks| == |was|
        invariant |was| > WINDOW ==> |recentPeaks| >= WINDOW
      {
        recentPeaks := recentPeaks[1..];
      }
    }

    method FollowBlocks(ev: PeakEvent)
      modifies this
      ensures State() == AfterFollow(old(State()), ev)
    {
      var followed := FollowBlocksAfter(lastFollowedHeight, ev.tip, ev.blocks);
      ghost var start := State();
      for i := 0 to |followed|
        invariant Absorb(start, followed) == Absorb(State(), followed[i..])
      {
        assert followed[i..][0] == followed[i] && followed[i..][1..] == followed[i + 1..];
        Retain(followed[i].height);
        recentPeaks := recentPeaks + [followed[i]];
        lastFollowedHeight := followed[i].height;
      }
      Shrink();
      if ev.header.Some? && (recentPeaks == [] || recentPeaks[|recentPeaks| - 1].height != ev.tip) {
        Retain(ev.tip);
        recentPeaks := recentPeaks + [Entry(ev.tip, ev.header.value.hash)];
        Shrink();
      }
    }
  }

  method FollowBlocksAfter(afterHeight: u32, tip: u32, blocks: map<u32, Hash>) returns (followed: seq<Peak>)
    ensures followed == Followed(SatAdd32(afterHeight, 1), tip, blocks)
  {
    followed := [];
    var start := SatAdd32(afterHeight, 1);
    if start > tip {
      return;
    }
    for height := start to tip + 1
      invariant Followed(start, tip, blocks) == followed + Followed(height, tip, blocks)
    {
      if height in blocks {
        followed := followed + [Entry(height, blocks[height])];
      }
    }
  }

  // ---------------------------------------------------------------------------------
  // The window discipline
  // ---------------------------------------------------------------------------------

  ghost predicate Contiguous(w: seq<Peak>) {
    forall i {:trigger w[i]} :: 0 <= i < |w| ==> w[i].height == w[0].height + i
  }

  /**
   Between two peaks the window is a non-empty run of consecutive heights ending at the last
   followed height, at most WINDOW long, whose bottom is less than WINDOW below every height `hw`
   the loop has handed to the index.
   */
  ghost predicate Disciplined(l: Loop, hw: nat) {
    && l.window != []
    && Contiguous(l.window)
    && |l.window| <= WINDOW
    && l.window[|l.window| - 1].height == l.last
    && 0 < l.window[0].height
    && l.last <= hw
    && SatSub(hw, WINDOW - 1) <= l.window[0].height
  }

  /**
   Every block record is available, and a rewound tip is still inside the window. The answers
   themselves are unconstrained: they may contradict each other.
   */
  ghost predicate Served(l: Loop, ev: PeakEvent) {
    && ev.header.Some?
    && (forall h: u32 :: h <= ev.tip ==> h in ev.blocks)
    && (l.window != [] ==> l.window[0].height <= ev.tip)
    && ev.tip < MAX_U32
  }

  lemma {:induction false} FirstForkInWindow(stored: seq<Peak>, hashAt: map<u32, Hash>)
    ensures FirstFork(stored, hashAt).Some? ==>
      exists i :: 0 <= i < |stored| && stored[i].height == FirstFork(stored, hashAt).value
  {
    if stored != [] && stored[0].height in hashAt && hashAt[stored[0].height] == stored[0].state {
      FirstForkInWindow(stored[1..], hashAt);
      if FirstFork(stored[1..], hashAt).Some? {
        var i :| 0 <= i < |stored[1..]| && stored[1..][i].height == FirstFork(stored[1..], hashAt).value;
        assert stored[i + 1].height == FirstFork(stored, hashAt).value;
      }
    }
  }

  lemma {:induction false} BelowContiguous(w: seq<Peak>, h: nat)
    requires Contiguous(w) && w != []
    ensures Below(w, h) == if h <= w[0].height then [] else if h - w[0].height <= |w| then w[..h - w[0].height] else w
  {
    var front, x := w[..|w| - 1], w[|w| - 1];
    assert w == front + [x];
    if front == [] {
      assert Below(front, h) == [];
    } else {
      BelowContiguous(front, h);
    }
  }

  lemma {:induction false} FollowedAll(start: nat, tip: u32, blocks: map<u32, Hash>)
    requires start <= tip + 1
    requires forall h: u32 :: h <= tip ==> h in blocks
    ensures |Followed(start, tip, blocks)| == tip + 1 - start
    ensures forall i {:trigger Followed(start, tip, blocks)[i]} :: 0 <= i < tip + 1 - start ==>
              Followed(start, tip, blocks)[i] == Entry(start + i, blocks[start + i])
    decreases tip + 1 - start
  {
    if start <= tip {
      FollowedAll(start + 1, tip, blocks);
      var rest := Followed(start + 1, tip, blocks);
      forall i | 0 <= i < tip + 1 - start
        ensures Followed(start, tip, blocks)[i] == Entry(start + i, blocks[start + i])
      {
        if i > 0 {
          assert Followed(start, tip, blocks)[i] == rest[i - 1];
        }
      }
    }
  }

  /** Following gives exactly the blocks of the range that have a record, in height order. */
  lemma {:induction false} FollowedIs(start: nat, tip: nat, blocks: map<u32, Hash>, p: Peak)
    requires tip <= MAX_U32
    ensures p in Followed(start, tip, blocks) <==>
      start <= p.height <= tip && p.height in blocks && blocks[p.height] == p.state
    ensures forall i, j {:trigger Followed(start, tip, blocks)[i], Followed(start, tip, blocks)[j]} ::
      0 <= i < j < |Followed(start, tip, blocks)| ==>
        Followed(start, tip, blocks)[i].height < Followed(start, tip, blocks)[j].height
    decreases tip + 1 - start
  {
    if start <= tip {
      FollowedIs(start + 1, tip, blocks, p);
      var rest := Followed(start + 1, tip, blocks);
      if start in blocks {
        forall j | 0 <= j < |rest| ensures start < rest[j].height {
          FollowedBounds(start + 1, tip, blocks, j);
        }
      }
    }
  }

  lemma {:induction false} FollowedBounds(start: nat, tip: nat, blocks: map<u32, Hash>, j: nat)
    requires tip <= MAX_U32 && j < |Followed(start, tip, blocks)|
    ensures start <= Followed(start, tip, blocks)[j].height <= tip
    decreases tip + 1 - start
  {
    if start in blocks {
      if j > 0 {
        FollowedBounds(start + 1, tip, blocks, j - 1);
      }
    } else {
      FollowedBounds(start + 1, tip, blocks, j);
    }
  }

  lemma {:induction false} AbsorbRun(l: Loop, followed: seq<Peak>)
    requires Contiguous(l.window + followed)
    ensures Absorb(l, followed)
         == Loop(l.window + followed, if followed == [] then l.last else followed[|followed| - 1].height)
    decreases |followed|
  {
    if followed == [] {
      assert l.window + followed == l.window;
    } else {
      var p, w := followed[0], l.window;
      assert w + followed == (w + [p]) + followed[1..];
      if w != [] {
        assert (w + followed)[0] == w[0] && (w + followed)[|w|] == p;
        assert Contiguous(w) by {
          forall i | 0 <= i < |w| ensures w[i].height == w[0].height + i {
            assert w[i] == (w + followed)[i];
          }
        }
        BelowContiguous(w, p.height);
        assert w[..|w|] == w;
      }
      assert Below(w, p.height) == w;
      AbsorbRun(Loop(w + [p], p.height), followed[1..]);
    }
  }

  /** Following every block from just above a contiguous window extends it to the tip. */
  lemma FollowExtends(l: Loop, tip: u32, blocks: map<u32, Hash>)
    requires Contiguous(l.window) && l.last <= tip
    requires l.window != [] ==> l.window[|l.window| - 1].height == l.last
    requires forall h: u32 :: h <= tip ==> h in blocks
    ensures
      var run := Followed(l.last + 1, tip, blocks);
      && Contiguous(l.window + run)
      && |run| == tip - l.last
      && (run != [] ==> run[0].height == l.last + 1 && run[|run| - 1].height == tip)
      && Absorb(l, run) == Loop(l.window + run, tip)
  {
    var run := Followed(l.last + 1, tip, blocks);
    FollowedAll(l.last + 1, tip, blocks);
    var w := l.window + run;
    forall i | 0 <= i < |w| ensures w[i].height == w[0].height + i {
      if i >= |l.window| {
        assert w[i] == run[i - |l.window|];
        if l.window != [] {
          assert l.window[|l.window| - 1].height == l.window[0].height + (|l.window| - 1);
        } else {
          assert w[0] == run[0];
        }
      }
    }
    AbsorbRun(l, run);
  }

  /** Any rollback a disciplined loop issues lands in its window or just above it. */
  lemma DetectKeepsShape(l: Loop, ev: PeakEvent, hw: nat)
    requires Disciplined(l, hw) && Served(l, ev)
    ensures
      var m := AfterDetect(l, ev);
      && Contiguous(m.window) && |m.window| <= WINDOW
      && m.last <= ev.tip
      && (m.window != [] ==> m.window[0] == l.window[0] && m.window[|m.window| - 1].height == m.last)
      && (m.window == [] ==> m.last + 1 == l.window[0].height && m.last < ev.tip)
    ensures Issued(l, ev).Some? ==> l.window[0].height <= Issued(l, ev).value
  {
    if Issued(l, ev).Some? {
      IssuedWithin(l, ev, hw);
      RewoundShape(l, Issued(l, ev).value);
    }
  }

  lemma IssuedWithin(l: Loop, ev: PeakEvent, hw: nat)
    requires Disciplined(l, hw) && Served(l, ev) && Issued(l, ev).Some?
    ensures l.window[0].height <= Issued(l, ev).value <= l.last
    ensures Issued(l, ev).value <= ev.tip || Issued(l, ev).value == ev.tip + 1 > l.window[0].height
  {
    FirstForkInWindow(l.window, ev.hashes);
    assert forall i :: 0 <= i < |l.window| ==> l.window[i].height == l.window[0].height + i;
  }

  lemma RewoundShape(l: Loop, from: u32)
    requires l.window != [] && Contiguous(l.window) && l.window[|l.window| - 1].height == l.last
    requires 0 < l.window[0].height <= from <= l.last
    ensures
      var m := Rewound(l, from);
      && m.window == l.window[..from - l.window[0].height] && m.last == from - 1
      && Contiguous(m.window)
      && (m.window != [] ==> m.window[|m.window| - 1].height == m.last)
  {
    BelowContiguous(l.window, from);
    assert l.window[|l.window| - 1].height == l.window[0].height + (|l.window| - 1);
  }

  /** What the window and the run of followed blocks make together, before trimming. */
  function FullWindow(m: Loop, ev: PeakEvent): seq<Peak>
  {
    m.window + Followed(m.last + 1, ev.tip, ev.blocks)
  }

  /** The tip can be reached from here by following blocks whose records are all available. */
  ghost predicate Followable(m: Loop, ev: PeakEvent) {
    && Contiguous(m.window) && m.last <= ev.tip < MAX_U32
    && (m.window != [] ==> m.window[|m.window| - 1].height == m.last)
    && (m.window == [] ==> m.last < ev.tip)
    && forall h: u32 :: h <= ev.tip ==> h in ev.blocks
  }

  lemma FullWindowReachesTip(m: Loop, ev: PeakEvent)
    requires Followable(m, ev)
    ensures
      var full := FullWindow(m, ev);
      && Contiguous(full) && full != [] && full[|full| - 1].height == ev.tip
      && full[0].height == (if m.window != [] then m.window[0].height else m.last + 1)
      && Absorb(m, Followed(m.last + 1, ev.tip, ev.blocks)) == Loop(full, ev.tip)
  {
    FullWindowIsRun(m, ev);
    FullWindowEnds(m, ev);
  }

  lemma FullWindowIsRun(m: Loop, ev: PeakEvent)
    requires Followable(m, ev)
    ensures Contiguous(FullWindow(m, ev))
    ensures Absorb(m, Followed(m.last + 1, ev.tip, ev.blocks)) == Loop(FullWindow(m, ev), ev.tip)
  {
    FollowExtends(m, ev.tip, ev.blocks);
  }

  lemma FullWindowEnds(m: Loop, ev: PeakEvent)
    requires Followable(m, ev)
    ensures
      var full := FullWindow(m, ev);
      && full != [] && full[|full| - 1].height == ev.tip
      && full[0].height == (if m.window != [] then m.window[0].height else m.last + 1)
  {
    var run := Followed(m.last + 1, ev.tip, ev.blocks);
    FollowedAll(m.last + 1, ev.tip, ev.blocks);
    EndsOf(m.window, run);
    if m.last < ev.tip {
      assert run[0].height == m.last + 1 && run[|run| - 1].height == ev.tip;
    }
  }

  lemma EndsOf(w: seq<Peak>, run: seq<Peak>)
    ensures w != [] ==> (w + run)[0] == w[0]
    ensures w == [] && run != [] ==> (w + run)[0] == run[0]
    ensures run != [] ==> (w + run)[|w + run| - 1] == run[|run| - 1]
    ensures run == [] ==> w + run == w
  {
  }

  /** With every record available, following ends in the trimmed window up to the tip. */
  lemma FollowIsTrimmedRun(m: Loop, ev: PeakEvent)
    requires Followable(m, ev)
    ensures AfterFollow(m, ev) == Loop(Trim(FullWindow(m, ev)), ev.tip)
  {
    var full := FullWindow(m, ev);
    FullWindowReachesTip(m, ev);
    TrimKeepsTop(full, ev.tip);
    assert Absorb(m, Followed(SatAdd32(m.last, 1), ev.tip, ev.blocks)) == Loop(full, ev.tip);
  }

  lemma TrimmedIsDisciplined(full: seq<Peak>, tip: u32, hw: nat)
    requires Contiguous(full) && full != [] && full[|full| - 1].height == tip
    requires 0 < full[0].height && SatSub(hw, WINDOW - 1) <= full[0].height
    ensures Disciplined(Loop(Trim(full), tip), Max(hw, tip))
    ensures full[0].height <= Trim(full)[0].height
  {
    TrimKeepsTop(full, tip);
  }

  /**
   A served peak keeps the discipline, never lowers the bottom of the window, and any rollback it
   issues stays within the window of every height handed to the index before.
   */
  lemma PeakKeepsDiscipline(l: Loop, ev: PeakEvent, hw: nat)
    requires Disciplined(l, hw) && Served(l, ev)
    ensures Disciplined(AfterPeak(l, ev), Max(hw, ev.tip))
    ensures AfterPeak(l, ev).last == ev.tip
    ensures l.window[0].height <= AfterPeak(l, ev).window[0].height
    ensures Issued(l, ev).Some? ==> SatSub(hw, WINDOW - 1) <= Issued(l, ev).value
  {
    DetectKeepsShape(l, ev, hw);
    var m := AfterDetect(l, ev);
    FollowIsTrimmedRun(m, ev);
    FullWindowReachesTip(m, ev);
    TrimmedIsDisciplined(FullWindow(m, ev), ev.tip, hw);
  }

  lemma TrimKeepsTop(w: seq<Peak>, tip: nat)
    requires Contiguous(w) && w != [] && w[|w| - 1].height == tip
    ensures Contiguous(Trim(w)) && 0 < |Trim(w)| <= WINDOW
    ensures Trim(w)[|Trim(w)| - 1].height == tip
    ensures w[0].height <= Trim(w)[0].height
    ensures |w| > WINDOW ==> Trim(w)[0].height == tip - (WINDOW - 1)
    ensures |w| <= WINDOW ==> Trim(w) == w
  {
    if |w| > WINDOW {
      forall i | 0 <= i < WINDOW ensures Trim(w)[i].height == Trim(w)[0].height + i {
        assert Trim(w)[i] == w[|w| - WINDOW + i] && Trim(w)[0] == w[|w| - WINDOW];
      }
    }
  }
}
