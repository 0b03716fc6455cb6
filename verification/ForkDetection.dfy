/**
 What the hash scan finds when header hashes commit to their ancestry: the exact fork height.
 `parent` gives the hash a header commits to as its predecessor.
 */
module ForkDetection {
  import opened Common
  import opened Versions
  import opened PeakWindow

  /** The canonical chain the node reports: a hash at every height up to the tip, each committing to the one below. */
  ghost predicate IsChain(canon: map<u32, Hash>, tip: u32, parent: Hash -> Hash) {
    && (forall h: u32 :: h <= tip ==> h in canon)
    && forall h: u32 :: 0 < h <= tip ==> Commits(canon, h, parent)
  }

  ghost predicate Commits(canon: map<u32, Hash>, h: u32, parent: Hash -> Hash) {
    0 < h && h in canon && h - 1 in canon && parent(canon[h]) == canon[h - 1]
  }

  /** Consecutive heights, each header committing to the one before it in the window. */
  ghost predicate Linked(w: seq<Peak>, parent: Hash -> Hash) {
    && Contiguous(w)
    && forall i :: 0 < i < |w| ==> LinkAt(w, i, parent)
  }

  ghost predicate LinkAt(w: seq<Peak>, i: int, parent: Hash -> Hash) {
    0 < i < |w| && parent(w[i].state) == w[i - 1].state
  }

  ghost predicate Canonical(p: Peak, canon: map<u32, Hash>) {
    p.height in canon && canon[p.height] == p.state
  }

  ghost predicate AllCanonical(w: seq<Peak>, canon: map<u32, Hash>) {
    forall i {:trigger w[i]} :: 0 <= i < |w| ==> Canonical(w[i], canon)
  }

  /** Ancestry: a canonical entry makes every earlier entry of a linked window canonical. */
  lemma {:induction false} AncestorsCanonical(w: seq<Peak>, canon: map<u32, Hash>, tip: u32, parent: Hash -> Hash,
                                              i: nat, j: nat)
    requires IsChain(canon, tip, parent) && Linked(w, parent)
    requires i <= j < |w| && w[j].height <= tip && Canonical(w[j], canon)
    ensures Canonical(w[i], canon)
    decreases j - i
  {
    if i < j {
      assert w[j].height == w[0].height + j && w[j - 1].height == w[0].height + (j - 1);
      assert LinkAt(w, j, parent) && Commits(canon, w[j].height, parent);
      AncestorsCanonical(w, canon, tip, parent, i, j - 1);
    }
  }

  /** The scan of a window against total answers stops exactly at the first contradicted entry. */
  lemma {:induction false} FirstForkIsFirst(w: seq<Peak>, canon: map<u32, Hash>)
    requires forall i :: 0 <= i < |w| ==> w[i].height in canon
    ensures FirstFork(w, canon).None? <==> AllCanonical(w, canon)
    ensures FirstFork(w, canon).Some? ==>
      exists k {:trigger w[k]} :: 0 <= k < |w| && w[k].height == FirstFork(w, canon).value
        && !Canonical(w[k], canon) && AllCanonical(w[..k], canon)
  {
    if w != [] {
      assert forall i :: 0 <= i < |w[1..]| ==> w[1..][i] == w[i + 1];
      if Canonical(w[0], canon) {
        FirstForkIsFirst(w[1..], canon);
        if FirstFork(w[1..], canon).Some? {
          var k :| 0 <= k < |w[1..]| && w[1..][k].height == FirstFork(w[1..], canon).value
            && !Canonical(w[1..][k], canon) && AllCanonical(w[1..][..k], canon);
          assert w[k + 1] == w[1..][k];
          forall i | 0 <= i < k + 1 ensures Canonical(w[i], canon) {
            if i > 0 {
              assert w[1..][..k][i - 1] == w[i];
            }
          }
          assert !AllCanonical(w, canon);
        } else {
          forall i | 0 <= i < |w| ensures Canonical(w[i], canon) {
            if i > 0 {
              assert w[1..][i - 1] == w[i];
            }
          }
        }
      } else {
        assert AllCanonical(w[..0], canon);
      }
    }
  }

  /**
   The scan answers with the fork height. For a linked window under a complete chain whose tip is
   not below the window: nothing is returned exactly when every remembered entry is canonical,
   and otherwise the entries below the returned height are exactly the canonical ones.
   */
  lemma RollbackIsForkHeight(w: seq<Peak>, canon: map<u32, Hash>, tip: u32, parent: Hash -> Hash)
    requires w != [] && Linked(w, parent) && IsChain(canon, tip, parent)
    requires w[|w| - 1].height <= tip < MAX_U32
    ensures
      match RollbackFrom(w, tip, parent(canon[tip]), canon)
      case None => AllCanonical(w, canon)
      case Some(from) =>
        && (exists k {:trigger w[k]} :: 0 <= k < |w| && w[k].height == from)
        && forall i {:trigger w[i]} :: 0 <= i < |w| ==> (w[i].height < from <==> Canonical(w[i], canon))
  {
    var top := w[|w| - 1];
    assert top.height == w[0].height + (|w| - 1);
    assert forall i :: 0 <= i < |w| ==> w[i].height in canon;
    if tip == top.height + 1 && parent(canon[tip]) == top.state {
      assert Commits(canon, tip, parent);
      assert Canonical(top, canon);
      forall i | 0 <= i < |w| ensures Canonical(w[i], canon) {
        AncestorsCanonical(w, canon, tip, parent, i, |w| - 1);
      }
    } else {
      FirstForkIsFirst(w, canon);
      if FirstFork(w, canon).Some? {
        var k :| 0 <= k < |w| && w[k].height == FirstFork(w, canon).value
          && !Canonical(w[k], canon) && AllCanonical(w[..k], canon);
        forall i | 0 <= i < |w| ensures w[i].height < w[k].height <==> Canonical(w[i], canon) {
          if i < k {
            assert w[..k][i] == w[i];
          } else if Canonical(w[i], canon) {
            AncestorsCanonical(w, canon, tip, parent, k, i);
          }
        }
      }
    }
  }

  /** A peak served from one consistent snapshot of the chain. */
  ghost predicate Consistent(ev: PeakEvent, canon: map<u32, Hash>, parent: Hash -> Hash) {
    && IsChain(canon, ev.tip, parent)
    && ev.header == Some(Header(canon[ev.tip], parent(canon[ev.tip])))
    && ev.hashes == canon && ev.blocks == canon
  }

  /**
   After a peak at or above the window, the window holds exactly the last canonical blocks, however
   many of the remembered entries a reorganization had orphaned; a rewound tip keeps it linked, so
   the next peak repairs it.
   */
  lemma PeakRestoresCanonicalWindow(l: Loop, ev: PeakEvent, hw: nat, canon: map<u32, Hash>, parent: Hash -> Hash)
    requires Disciplined(l, hw) && Served(l, ev) && Linked(l.window, parent)
    requires Consistent(ev, canon, parent)
    ensures Linked(AfterPeak(l, ev).window, parent)
    ensures l.last <= ev.tip ==> AllCanonical(AfterPeak(l, ev).window, canon)
  {
    DetectKeepsShape(l, ev, hw);
    var m := AfterDetect(l, ev);
    if l.last <= ev.tip {
      FollowReachesTip(l, ev, hw, canon, parent);
    } else {
      RewoundStaysLinked(l, ev, hw, canon, parent);
    }
    TrimKeepsLinks(FullWindow(m, ev), canon, parent);
    FollowIsTrimmedRun(m, ev);
  }

  lemma FollowReachesTip(l: Loop, ev: PeakEvent, hw: nat, canon: map<u32, Hash>, parent: Hash -> Hash)
    requires Disciplined(l, hw) && Served(l, ev) && Linked(l.window, parent)
    requires Consistent(ev, canon, parent) && l.last <= ev.tip
    ensures
      var m := AfterDetect(l, ev);
      && m.last <= ev.tip
      && Linked(FullWindow(m, ev), parent)
      && AllCanonical(FullWindow(m, ev), canon)
  {
    DetectKeepsShape(l, ev, hw);
    var m := AfterDetect(l, ev);
    DetectKeepsCanonical(l, ev, canon, parent);
    FollowKeepsCanonical(m, ev, canon);
    FullWindowReachesTip(m, ev);
    CanonicalIsLinked(FullWindow(m, ev), canon, ev.tip, parent);
  }

  lemma RewoundStaysLinked(l: Loop, ev: PeakEvent, hw: nat, canon: map<u32, Hash>, parent: Hash -> Hash)
    requires Disciplined(l, hw) && Served(l, ev) && Linked(l.window, parent)
    requires Consistent(ev, canon, parent) && ev.tip < l.last
    ensures
      var m := AfterDetect(l, ev);
      && m.last <= ev.tip
      && Linked(FullWindow(m, ev), parent)
  {
    var m := AfterDetect(l, ev);
    BelowContiguous(l.window, ev.tip + 1);
    var k := ev.tip + 1 - l.window[0].height;
    assert l.window[|l.window| - 1].height == l.window[0].height + (|l.window| - 1);
    assert m.window == l.window[..k];
    assert l.window[k - 1].height == l.window[0].height + (k - 1);
    assert FullWindow(m, ev) == m.window;
    forall i | 0 < i < k ensures LinkAt(m.window, i, parent) {
      assert LinkAt(l.window, i, parent);
    }
  }

  lemma FollowKeepsCanonical(m: Loop, ev: PeakEvent, canon: map<u32, Hash>)
    requires AllCanonical(m.window, canon) && ev.blocks == canon
    requires m.last <= ev.tip && forall h: u32 :: h <= ev.tip ==> h in canon
    ensures AllCanonical(FullWindow(m, ev), canon)
  {
    var run := Followed(m.last + 1, ev.tip, ev.blocks);
    FollowedAll(m.last + 1, ev.tip, ev.blocks);
    forall i | 0 <= i < |m.window + run| ensures Canonical((m.window + run)[i], canon) {
      if i >= |m.window| {
        assert (m.window + run)[i] == run[i - |m.window|];
      }
    }
  }

  lemma DetectKeepsCanonical(l: Loop, ev: PeakEvent, canon: map<u32, Hash>, parent: Hash -> Hash)
    requires l.window != [] && l.window[|l.window| - 1].height <= ev.tip < MAX_U32
    requires Linked(l.window, parent) && Consistent(ev, canon, parent)
    ensures AllCanonical(AfterDetect(l, ev).window, canon)
  {
    var w := l.window;
    RollbackIsForkHeight(w, canon, ev.tip, parent);
    match Issued(l, ev) {
      case None =>
      case Some(from) =>
        BelowContiguous(w, from);
        forall i | 0 <= i < |Below(w, from)| ensures Canonical(Below(w, from)[i], canon) {
          assert Below(w, from)[i] == w[i];
          assert w[i].height < from;
        }
    }
  }

  lemma CanonicalIsLinked(w: seq<Peak>, canon: map<u32, Hash>, tip: u32, parent: Hash -> Hash)
    requires Contiguous(w) && AllCanonical(w, canon) && IsChain(canon, tip, parent)
    requires w != [] ==> w[|w| - 1].height <= tip
    ensures Linked(w, parent)
  {
    forall i | 0 < i < |w| ensures LinkAt(w, i, parent) {
      assert w[i].height == w[0].height + i && w[i - 1].height == w[0].height + (i - 1);
      assert w[|w| - 1].height == w[0].height + (|w| - 1);
      assert Canonical(w[i], canon) && Canonical(w[i - 1], canon) && Commits(canon, w[i].height, parent);
    }
  }

  lemma TrimKeepsLinks(w: seq<Peak>, canon: map<u32, Hash>, parent: Hash -> Hash)
    ensures Linked(w, parent) ==> Linked(Trim(w), parent)
    ensures AllCanonical(w, canon) ==> AllCanonical(Trim(w), canon)
  {
    if |w| > WINDOW {
      var k, s := |w| - WINDOW, Trim(w);
      assert forall i :: 0 <= i < |s| ==> s[i] == w[k + i];
      if Linked(w, parent) {
        forall i | 0 < i < |s| ensures LinkAt(s, i, parent) {
          assert LinkAt(w, k + i, parent);
        }
        forall i | 0 <= i < |s| ensures s[i].height == s[0].height + i {
          assert w[k + i].height == w[0].height + (k + i) && w[k].height == w[0].height + k;
        }
      }
    }
  }
}
