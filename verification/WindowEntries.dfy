/** The window after a peak, whatever the node answers: records may be missing and answers contradict each other. */
module WindowEntries {
  import opened Common
  import opened Versions
  import opened PeakWindow

  ghost predicate Climbs(w: seq<Peak>) {
    forall i, j :: 0 <= i < j < |w| ==> w[i].height < w[j].height
  }

  ghost predicate AllBelow(w: seq<Peak>, n: nat) {
    forall i :: 0 <= i < |w| ==> w[i].height < n
  }

  lemma {:induction false} BelowBounded(w: seq<Peak>, h: nat, n: nat)
    requires AllBelow(w, n)
    ensures AllBelow(Below(w, h), n)
  {
    if w != [] {
      BelowBounded(w[..|w| - 1], h, n);
    }
  }

  lemma {:induction false} BelowClimbs(w: seq<Peak>, h: nat)
    requires Climbs(w)
    ensures Climbs(Below(w, h)) && AllBelow(Below(w, h), h)
  {
    if w != [] {
      BelowClimbs(w[..|w| - 1], h);
      BelowBounded(w[..|w| - 1], h, w[|w| - 1].height);
    }
  }

  lemma {:induction false} BelowIsPart(w: seq<Peak>, h: nat, p: Peak)
    requires p in Below(w, h)
    ensures p in w
  {
    if p !in [w[|w| - 1]] {
      BelowIsPart(w[..|w| - 1], h, p);
    }
  }

  lemma AppendClimbs(w: seq<Peak>, p: Peak)
    requires Climbs(w)
    ensures Climbs(Below(w, p.height) + [p])
  {
    BelowClimbs(w, p.height);
  }

  lemma {:induction false} AbsorbClimbs(l: Loop, followed: seq<Peak>)
    requires Climbs(l.window)
    ensures Climbs(Absorb(l, followed).window)
    decreases |followed|
  {
    if followed != [] {
      AppendClimbs(l.window, followed[0]);
      AbsorbClimbs(Loop(Below(l.window, followed[0].height) + [followed[0]], followed[0].height), followed[1..]);
    }
  }

  lemma TrimClimbs(w: seq<Peak>)
    requires Climbs(w)
    ensures Climbs(Trim(w)) && |Trim(w)| <= 32
    ensures w != [] ==> Trim(w) != [] && Trim(w)[|Trim(w)| - 1] == w[|w| - 1]
    ensures |w| > 32 ==> |Trim(w)| == 32
    ensures forall p :: p in Trim(w) ==> p in w
  {
  }

  lemma {:induction false} AbsorbedFrom(l: Loop, followed: seq<Peak>, p: Peak)
    requires Climbs(l.window) && p in Absorb(l, followed).window
    ensures p in l.window || p in followed
    decreases |followed|
  {
    if followed != [] {
      var x := followed[0];
      AppendClimbs(l.window, x);
      AbsorbedFrom(Loop(Below(l.window, x.height) + [x], x.height), followed[1..], p);
      if p in Below(l.window, x.height) {
        BelowIsPart(l.window, x.height, p);
      }
      assert followed == [x] + followed[1..];
    }
  }

  /** An entry a peak adds: a followed block under its record's hash, or the tip under its header's. */
  predicate Seen(ev: PeakEvent, p: Peak) {
    || (p.height <= ev.tip && p.height in ev.blocks && ev.blocks[p.height] == p.state)
    || (ev.header.Some? && p == Entry(ev.tip, ev.header.value.hash))
  }

  lemma DetectClimbs(l: Loop, ev: PeakEvent)
    requires Climbs(l.window)
    ensures Climbs(AfterDetect(l, ev).window) && forall p :: p in AfterDetect(l, ev).window ==> p in l.window
  {
    if Issued(l, ev).Some? {
      BelowClimbs(l.window, Issued(l, ev).value);
      forall p | p in AfterDetect(l, ev).window ensures p in l.window {
        BelowIsPart(l.window, Issued(l, ev).value, p);
      }
    }
  }

  lemma FollowClimbs(m: Loop, ev: PeakEvent)
    requires Climbs(m.window)
    ensures Climbs(AfterFollow(m, ev).window) && |AfterFollow(m, ev).window| <= 32
    ensures ev.header.Some? ==>
      AfterFollow(m, ev).window != [] && LastOf(AfterFollow(m, ev).window).value.height == ev.tip
  {
    CaughtUpClimbs(m, ev);
    if ev.header.Some? {
      TopClimbs(CaughtUp(m, ev), Entry(ev.tip, ev.header.value.hash));
    }
  }

  /** The window after following blocks, before the tip is put on top of it. */
  function CaughtUp(m: Loop, ev: PeakEvent): seq<Peak> {
    Trim(Absorb(m, Followed(SatAdd32(m.last, 1), ev.tip, ev.blocks)).window)
  }

  lemma CaughtUpClimbs(m: Loop, ev: PeakEvent)
    requires Climbs(m.window)
    ensures Climbs(CaughtUp(m, ev)) && |CaughtUp(m, ev)| <= 32
  {
    var run := Followed(SatAdd32(m.last, 1), ev.tip, ev.blocks);
    AbsorbClimbs(m, run);
    TrimClimbs(Absorb(m, run).window);
  }

  lemma TopClimbs(w: seq<Peak>, top: Peak)
    requires Climbs(w)
    ensures
      var v := Trim(Below(w, top.height) + [top]);
      Climbs(v) && v != [] && LastOf(v).value == top && |v| <= 32
  {
    AppendClimbs(w, top);
    TrimClimbs(Below(w, top.height) + [top]);
  }

  lemma FollowAddsSeen(m: Loop, ev: PeakEvent, p: Peak)
    requires Climbs(m.window) && p in AfterFollow(m, ev).window
    ensures p in m.window || Seen(ev, p)
  {
    CaughtUpClimbs(m, ev);
    if p in CaughtUp(m, ev) {
      CaughtUpIsSeen(m, ev, p);
    } else {
      var w, top := CaughtUp(m, ev), Entry(ev.tip, ev.header.value.hash);
      AppendClimbs(w, top);
      TrimClimbs(Below(w, ev.tip) + [top]);
      if p in Below(w, ev.tip) {
        BelowIsPart(w, ev.tip, p);
      }
    }
  }

  lemma CaughtUpIsSeen(m: Loop, ev: PeakEvent, p: Peak)
    requires Climbs(m.window) && p in CaughtUp(m, ev)
    ensures p in m.window || Seen(ev, p)
  {
    var run := Followed(SatAdd32(m.last, 1), ev.tip, ev.blocks);
    AbsorbClimbs(m, run);
    TrimClimbs(Absorb(m, run).window);
    AbsorbedFrom(m, run, p);
    FollowedIs(SatAdd32(m.last, 1), ev.tip, ev.blocks, p);
  }

  /**
   Any peak leaves at most thirty-two entries at climbing heights, each one kept or seen now, and a peak
   whose header is known leaves the tip on top.
   */
  lemma PeakEndsAtTip(l: Loop, ev: PeakEvent)
    requires Climbs(l.window)
    ensures Climbs(AfterPeak(l, ev).window) && |AfterPeak(l, ev).window| <= 32
    ensures ev.header.Some? ==>
      AfterPeak(l, ev).window != [] && LastOf(AfterPeak(l, ev).window).value.height == ev.tip
    ensures forall p :: p in AfterPeak(l, ev).window ==> p in l.window || Seen(ev, p)
  {
    DetectClimbs(l, ev);
    FollowClimbs(AfterDetect(l, ev), ev);
    forall p | p in AfterPeak(l, ev).window ensures p in l.window || Seen(ev, p) {
      FollowAddsSeen(AfterDetect(l, ev), ev, p);
    }
  }

  lemma {:induction false} LastIsLastFollowed(l: Loop, followed: seq<Peak>)
    ensures Absorb(l, followed).last == if followed == [] then l.last else followed[|followed| - 1].height
    decreases |followed|
  {
    if followed != [] {
      var p := followed[0];
      LastIsLastFollowed(Loop(Below(l.window, p.height) + [p], p.height), followed[1..]);
    }
  }

  /**
   A block whose record was missing is asked for again at the next peak exactly when no later block of
   this peak had a record.
   */
  lemma MissedIsRetriedIff(m: Loop, ev: PeakEvent, h: u32)
    requires m.last < h <= ev.tip && h !in ev.blocks
    ensures AfterFollow(m, ev).last < h <==> forall k: u32 :: h < k <= ev.tip ==> k !in ev.blocks
  {
    var run := Followed(m.last + 1, ev.tip, ev.blocks);
    LastIsLastFollowed(m, run);
    assert AfterFollow(m, ev).last == Absorb(m, run).last;
    if run != [] {
      LastIsFollowed(m.last + 1, ev.tip, ev.blocks);
    }
    forall k: u32 | h < k <= ev.tip && k in ev.blocks ensures AfterFollow(m, ev).last >= k {
      InFollowed(m.last + 1, ev.tip, ev.blocks, k);
    }
  }

  lemma LastIsFollowed(start: nat, tip: u32, blocks: map<u32, Hash>)
    requires Followed(start, tip, blocks) != []
    ensures
      var p := LastOf(Followed(start, tip, blocks)).value;
      start <= p.height <= tip && p.height in blocks
  {
    FollowedIs(start, tip, blocks, LastOf(Followed(start, tip, blocks)).value);
  }

  lemma InFollowed(start: nat, tip: u32, blocks: map<u32, Hash>, k: u32)
    requires start <= k <= tip && k in blocks
    ensures Followed(start, tip, blocks) != [] && k <= LastOf(Followed(start, tip, blocks)).value.height
  {
    var p: Peak := Entry(k, blocks[k]);
    FollowedIs(start, tip, blocks, p);
    var run := Followed(start, tip, blocks);
    var i :| 0 <= i < |run| && run[i] == p;
    if i < |run| - 1 {
      assert run[i].height < run[|run| - 1].height;
    }
  }
}
