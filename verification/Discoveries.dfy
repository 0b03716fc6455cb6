/** What becomes of a reference: found at once, found later, shown several times over, or never. */
module Discoveries {
  import opened Common
  import opened Registry
  import opened Versions
  import opened References

  /** A block after the discovery. */
  datatype Later = Later(height: u32, view: BlockView)

  /** The record of a launcher through later blocks. */
  function Through(l: Bytes32, f: Followed, blocks: seq<Later>): Followed {
    if blocks == [] then f
    else
      var b := blocks[|blocks| - 1];
      AfterBlock(l, Through(l, f, blocks[..|blocks| - 1]), b.height, b.view)
  }

  /** What the discovery and each later block show for the reference. */
  function Showings(r: Reference, d: Discovery, blocks: seq<Later>): seq<Discovery> {
    if blocks == [] then [d]
    else Showings(r, d, blocks[..|blocks| - 1]) + [Search(blocks[|blocks| - 1].view, r)]
  }

  lemma {:induction false} ShowingsLength(r: Reference, d: Discovery, blocks: seq<Later>)
    ensures |Showings(r, d, blocks)| == |blocks| + 1
  {
    if blocks != [] {
      ShowingsLength(r, d, blocks[..|blocks| - 1]);
    }
  }

  /** Showing `i` is the first that is not empty. */
  predicate FirstShown(ds: seq<Discovery>, i: int) {
    0 <= i < |ds| && !ds[i].NotFound? && forall j :: 0 <= j < i ==> ds[j].NotFound?
  }

  predicate NeverShown(ds: seq<Discovery>) {
    forall i :: 0 <= i < |ds| ==> ds[i].NotFound?
  }

  lemma FirstShownSnoc(ds: seq<Discovery>, d: Discovery, i: int)
    ensures FirstShown(ds + [d], i) <==>
      FirstShown(ds, i) || (i == |ds| && NeverShown(ds) && !d.NotFound?)
  {
    var all := ds + [d];
    assert all[|ds|] == d && forall j :: 0 <= j < |ds| ==> all[j] == ds[j];
  }

  lemma NeverShownSnoc(ds: seq<Discovery>, d: Discovery)
    ensures NeverShown(ds + [d]) <==> NeverShown(ds) && d.NotFound?
  {
    var all := ds + [d];
    assert all[|ds|] == d && forall j :: 0 <= j < |ds| ==> all[j] == ds[j];
  }

  lemma FirstIsUnique(ds: seq<Discovery>, i: int, j: int)
    requires FirstShown(ds, i) && FirstShown(ds, j)
    ensures i == j
  {
  }

  /** A discovery of a launcher that is not being followed, and then any blocks. */
  function Record(s: Store, r: Reference, height: u32, d: Discovery, blocks: seq<Later>): Followed {
    Through(r.launcher, Discovered(s, r, height, d), blocks)
  }

  /**
   The record is incomplete exactly while nothing has been shown; a mismatch, without a state and for
   good, exactly when the first showing is of several; and active exactly when it is a single one.
   */
  lemma {:induction false} StatusFollowsFirstShowing(s: Store, r: Reference, height: u32, d: Discovery,
                                                     blocks: seq<Later>)
    ensures
      var f, ds := Record(s, r, height, d, blocks), Showings(r, d, blocks);
      && (f.status == Incomplete <==> NeverShown(ds))
      && (f.status == Mismatch <==> exists i :: FirstShown(ds, i) && ds[i].Several?)
      && (f.status == Active <==> exists i :: FirstShown(ds, i) && ds[i].Found?)
      && (f.status != Active ==> f.versions.current == None)
      && f.full == r.full && f.inner == r.inner
  {
    var ds := Showings(r, d, blocks);
    if blocks == [] {
      if !d.NotFound? {
        assert FirstShown(ds, 0);
      }
    } else {
      var front, b := blocks[..|blocks| - 1], blocks[|blocks| - 1];
      var before, shown := Showings(r, d, front), Search(b.view, r);
      StatusFollowsFirstShowing(s, r, height, d, front);
      NeverShownSnoc(before, shown);
      forall i ensures FirstShown(ds, i) <==>
        FirstShown(before, i) || (i == |before| && NeverShown(before) && !shown.NotFound?)
      {
        FirstShownSnoc(before, shown, i);
      }
      if NeverShown(before) && !shown.NotFound? {
        assert FirstShown(ds, |before|);
      } else if i :| FirstShown(before, i) {
        assert FirstShown(ds, i) && ds[i] == before[i];
      }
    }
  }

  /** The block that first shows a single state makes it the record's current one, at that block's height. */
  lemma FoundStateIsCurrent(s: Store, r: Reference, height: u32, d: Discovery, blocks: seq<Later>, b: Later)
    requires NeverShown(Showings(r, d, blocks)) && Search(b.view, r).Found?
    ensures
      var f := Record(s, r, height, d, blocks + [b]);
      f.status == Active && f.versions.current == Some(Entry(b.height, Search(b.view, r).state))
  {
    StatusFollowsFirstShowing(s, r, height, d, blocks);
    assert (blocks + [b])[..|blocks|] == blocks;
  }

  lemma DiscoveryFindsAtOnce(s: Store, r: Reference, height: u32, st: SingletonState)
    ensures
      var f := Record(s, r, height, Found(st), []);
      f.status == Active && f.versions.current == Some(Entry(height, st)) && f.discovery == height
  {
  }

  /** A block changes an active record only by spending its unmelted current coin, and then to what the spend shows. */
  lemma SpendMovesRecord(l: Bytes32, f: Followed, height: u32, view: BlockView)
    requires f.status == Active && f.versions.current.Some?
    ensures
      var c := f.versions.current.value.state;
      && (c.melted || c.coin !in view.next ==> AfterBlock(l, f, height, view) == f)
      && (!c.melted && c.coin in view.next ==>
            AfterBlock(l, f, height, view).versions.current == Some(Entry(height, view.next[c.coin])))
  {
  }

  /** A chain of coins, each spent in a block of its own, leads the record to the last of them. */
  predicate Hops(st: SingletonState, blocks: seq<Later>, states: seq<SingletonState>)
    decreases |blocks|
  {
    |states| == |blocks| &&
    (blocks != [] ==>
       && !st.melted && st.coin in blocks[0].view.next && blocks[0].view.next[st.coin] == states[0]
       && Hops(states[0], blocks[1..], states[1..]))
  }

  lemma {:induction false} ThroughHead(l: Bytes32, f: Followed, blocks: seq<Later>)
    requires blocks != []
    ensures Through(l, f, blocks) == Through(l, AfterBlock(l, f, blocks[0].height, blocks[0].view), blocks[1..])
    decreases |blocks|
  {
    var front, tail := blocks[..|blocks| - 1], blocks[1..];
    if front == [] {
      assert tail == [];
    } else {
      ThroughHead(l, f, front);
      assert front[1..] == tail[..|tail| - 1] && tail != [];
    }
  }

  lemma {:induction false} FollowsHops(l: Bytes32, f: Followed, blocks: seq<Later>, states: seq<SingletonState>)
    requires f.status == Active && f.versions.current.Some? && Hops(f.versions.current.value.state, blocks, states)
    ensures
      var after := Through(l, f, blocks);
      && after.status == Active
      && after.versions.current == if blocks == [] then f.versions.current
           else Some(Entry(blocks[|blocks| - 1].height, states[|states| - 1]))
    decreases |blocks|
  {
    if blocks != [] {
      ThroughHead(l, f, blocks);
      FollowsHops(l, AfterBlock(l, f, blocks[0].height, blocks[0].view), blocks[1..], states[1..]);
    }
  }

  /** Once melted, no block changes the state. */
  lemma {:induction false} MeltedStays(l: Bytes32, f: Followed, blocks: seq<Later>)
    requires f.status == Active && f.versions.current.Some? && f.versions.current.value.state.melted
    ensures Through(l, f, blocks) == f
  {
    if blocks != [] {
      MeltedStays(l, f, blocks[..|blocks| - 1]);
    }
  }

  /** Blocks never touch an active record without a state: it is neither looked for again nor followed. */
  lemma {:induction false} StatelessStays(l: Bytes32, f: Followed, blocks: seq<Later>)
    requires f.status == Active && f.versions.current.None?
    ensures Through(l, f, blocks) == f
  {
    if blocks != [] {
      StatelessStays(l, f, blocks[..|blocks| - 1]);
    }
  }

  /**
   A reference found only by a later block, and then rolled back: it is still followed exactly when that
   block is below the rollback height. Otherwise it stays active without a state, and no block that
   shows it again is looked at.
   */
  lemma UndoneFindIsNotRetried(s: Store, r: Reference, height: u32, blocks: seq<Later>, b: Later, from: u32,
                               more: seq<Later>)
    requires r.launcher !in s && height < from
    requires NeverShown(Showings(r, NotFound, blocks)) && Search(b.view, r).Found?
    ensures
      var f := Restored(Record(s, r, height, NotFound, blocks + [b]), from);
      && f.status == Active && (Following(f) <==> b.height < from)
      && (b.height >= from ==> Through(r.launcher, f, more) == f)
  {
    FoundStateIsCurrent(s, r, height, NotFound, blocks, b);
    UnfoundHasNoHistory(s, r, height, blocks);
    assert (blocks + [b])[..|blocks|] == blocks;
    var f := Restored(Record(s, r, height, NotFound, blocks + [b]), from);
    if b.height >= from {
      StatelessStays(r.launcher, f, more);
    }
  }

  lemma {:induction false} UnfoundHasNoHistory(s: Store, r: Reference, height: u32, blocks: seq<Later>)
    requires r.launcher !in s && NeverShown(Showings(r, NotFound, blocks))
    ensures Record(s, r, height, NotFound, blocks).versions == Versions.Record(None, [])
    ensures Record(s, r, height, NotFound, blocks).status == Incomplete
  {
    StatusFollowsFirstShowing(s, r, height, NotFound, blocks);
    if blocks != [] {
      NeverShownSnoc(Showings(r, NotFound, blocks[..|blocks| - 1]), Search(blocks[|blocks| - 1].view, r));
      UnfoundHasNoHistory(s, r, height, blocks[..|blocks| - 1]);
    }
  }

  // ---------------------------------------------------------------------------------
  // Through the store
  // ---------------------------------------------------------------------------------

  function Blocks(blocks: seq<Later>): seq<Change> {
    if blocks == [] then []
    else Blocks(blocks[..|blocks| - 1]) + [Block(blocks[|blocks| - 1].height, blocks[|blocks| - 1].view)]
  }

  /** The store's own record of a newly discovered launcher is this one. */
  lemma {:induction false} StoredRecord(s: Store, r: Reference, height: u32, d: Discovery, blocks: seq<Later>)
    requires !(r.launcher in s && Following(s[r.launcher]))
    ensures
      var after := Changed(Apply(s, Discover(r, height, d)), Blocks(blocks));
      r.launcher in after && after[r.launcher] == Record(s, r, height, d, blocks)
  {
    if blocks != [] {
      var front, b := blocks[..|blocks| - 1], blocks[|blocks| - 1];
      StoredRecord(s, r, height, d, front);
      ChangedSnoc(Apply(s, Discover(r, height, d)), Blocks(front), Block(b.height, b.view));
    }
  }

  /** Rediscovering a launcher keeps its positive count; following one again counts one more. */
  lemma DiscoveryCounts(s: Store, r: Reference, height: u32, d: Discovery)
    ensures
      var after := Apply(s, Discover(r, height, d));
      && r.launcher in after && after[r.launcher].dereference == None
      && (r.launcher !in s ==> after[r.launcher].count == 1)
      && (r.launcher in s && Following(s[r.launcher]) ==>
            after[r.launcher].count == SatAdd32(s[r.launcher].count, 1)
            && after[r.launcher].versions == s[r.launcher].versions)
      && (r.launcher in s && !Following(s[r.launcher]) ==>
            after[r.launcher].count == (if s[r.launcher].count == 0 then 1 else s[r.launcher].count)
            && after[r.launcher].versions.history == s[r.launcher].versions.history)
  {
  }

  // ---------------------------------------------------------------------------------
  // What a transition asks of the store
  // ---------------------------------------------------------------------------------

  /** A change of one registry spend: discoveries with what its block shows, drops at its height, bumps. */
  predicate OfSpend(c: Change, height: u32, view: BlockView) {
    match c
    case Discover(r, h, d) => h == height && d == if r in view.found then view.found[r] else NotFound
    case Drop(_, h) => h == height
    case Rebump(_) => true
    case _ => false
  }

  predicate AllOfSpend(cs: seq<Change>, height: u32, view: BlockView) {
    forall i :: 0 <= i < |cs| ==> OfSpend(cs[i], height, view)
  }

  lemma {:induction false} DiscoveriesOfSpend(rs: seq<Reference>, height: u32, view: BlockView)
    ensures AllOfSpend(Discoveries(rs, height, view), height, view)
  {
    if rs != [] {
      DiscoveriesOfSpend(rs[..|rs| - 1], height, view);
    }
  }

  lemma {:induction false} DropsOfSpend(ls: seq<Bytes32>, height: u32, view: BlockView)
    ensures AllOfSpend(Drops(ls, height), height, view)
  {
    if ls != [] {
      DropsOfSpend(ls[..|ls| - 1], height, view);
    }
  }

  lemma {:induction false} TracksOfSpend(pairs: seq<(SlotValue, SlotValue)>, height: u32, view: BlockView)
    ensures AllOfSpend(TrackChanges(pairs, height), height, view)
  {
    if pairs != [] {
      var (s, c) := pairs[|pairs| - 1];
      TracksOfSpend(pairs[..|pairs| - 1], height, view);
      DropsOfSpend(Dereferenced(s, c), height, view);
    }
  }

  /** Everything a registry spend changes of the followed singletons is at its own height and of its own block. */
  lemma {:induction false} TransitionIsOfSpend(logs: seq<ActionLog>, height: u32, view: BlockView)
    ensures AllOfSpend(TransitionChanges(logs, height, view), height, view)
  {
    if logs != [] {
      TransitionIsOfSpend(logs[..|logs| - 1], height, view);
      DiscoveriesOfSpend(ReferencesOf(logs[|logs| - 1]), height, view);
      TracksOfSpend(Pairs(logs[|logs| - 1]), height, view);
    }
  }

  // ---------------------------------------------------------------------------------
  // Hashes, cleanup and rollback
  // ---------------------------------------------------------------------------------

  /** The hashes an action commits to. */
  function HashesOf(log: ActionLog): Option<(SlotValue, PuzzleHashes)> {
    match log
    case RegisterLog(_, _, _, c, _, _, p) => Some((c, p))
    case ExpireLog(_, c, _, p) => Some((c, p))
    case ExecuteUpdateLog(_, c, _, p) => Some((c, p))
    case _ => None
  }

  /** A reference carries the owner's hashes exactly when it is the owner's, else the resolved launcher's. */
  lemma ReferenceHashes(log: ActionLog, r: Reference)
    requires r in ReferencesOf(log)
    ensures
      HashesOf(log).Some? &&
      var (c, p) := HashesOf(log).value;
      || (r.launcher == c.owner && r.full == p.ownerFull && r.inner == p.ownerInner)
      || (r.launcher == c.resolved != c.owner && p.resolvedFull == Some(r.full) && r.inner == p.resolvedInner)
  {
  }

  /** Cleanup removes a record exactly when it has been at zero since a drop at least 32 blocks before the peak. */
  lemma CleanupRemovesIff(cs: seq<Change>, peak: u32, l: Bytes32)
    requires l in Changed(map[], cs)
    ensures l !in Apply(Changed(map[], cs), Cleanup(peak))
       <==> exists i, d: u32 :: 0 <= i && DroppedSince(cs, i, l, d) && peak >= SatAdd32(d, 32)
  {
    if l !in Apply(Changed(map[], cs), Cleanup(peak)) {
      CleanupNeedsOldDrop(cs, peak, l);
    }
    if i, d: u32 :| 0 <= i && DroppedSince(cs, i, l, d) && peak >= SatAdd32(d, 32) {
      assert cs[..|cs|] == cs;
      var s := Changed(map[], cs[..|cs|]);
      assert l in s && s[l].count == 0 && s[l].dereference == Some(d);
    }
  }

  /** Change `i` discovered the record as it is named now, and no rollback since went down to it. */
  ghost predicate DiscoveredBy(cs: seq<Change>, i: int, l: Bytes32, f: Followed) {
    && 0 <= i < |cs| && cs[i].Discover?
    && cs[i].r == Reference(l, f.full, f.inner) && cs[i].height == f.discovery
    && forall j :: i < j < |cs| && cs[j].Rollback? ==> f.discovery < cs[j].from
  }

  /** A change leaves a record named as before, or discovers it, or rolls back to above its discovery. */
  lemma ChangeNames(s: Store, c: Change, l: Bytes32)
    requires l in Apply(s, c)
    ensures
      var f := Apply(s, c)[l];
      || (c.Discover? && c.r == Reference(l, f.full, f.inner) && c.height == f.discovery)
      || (l in s && Same(s[l], f) && (c.Rollback? ==> f.discovery < c.from))
  {
  }

  lemma DiscoveredStays(front: seq<Change>, c: Change, i: int, l: Bytes32, f: Followed, g: Followed)
    requires DiscoveredBy(front, i, l, f) && Same(f, g) && (c.Rollback? ==> g.discovery < c.from)
    ensures DiscoveredBy(front + [c], i, l, g)
  {
  }

  /** Over all changes, a record's hashes and discovery height are those of a discovery not rolled back. */
  lemma {:induction false} RecordHasDiscovery(cs: seq<Change>, l: Bytes32)
    requires l in Changed(map[], cs)
    ensures exists i :: DiscoveredBy(cs, i, l, Changed(map[], cs)[l])
  {
    var front, c := cs[..|cs| - 1], cs[|cs| - 1];
    var s, f := Changed(map[], front), Changed(map[], cs)[l];
    assert cs == front + [c];
    ChangeNames(s, c, l);
    if c.Discover? && c.r == Reference(l, f.full, f.inner) && c.height == f.discovery {
      assert DiscoveredBy(cs, |front|, l, f);
    } else {
      RecordHasDiscovery(front, l);
      var i :| DiscoveredBy(front, i, l, s[l]);
      DiscoveredStays(front, c, i, l, s[l], f);
    }
  }

  predicate Same(f: Followed, g: Followed) {
    f.full == g.full && f.inner == g.inner && f.discovery == g.discovery
  }

  /** A rollback that undoes a record's last drop leaves it with one reference; any other leaves its count alone. */
  lemma RollbackCounts(s: Store, from: u32, l: Bytes32)
    requires Consistent(s) && l in s && s[l].discovery < from
    ensures
      var after := Apply(s, Change.Rollback(from));
      && l in after
      && (s[l].dereference.Some? && s[l].dereference.value >= from ==>
            s[l].count == 0 && after[l].count == 1 && after[l].dereference == None)
      && (s[l].dereference.None? || s[l].dereference.value < from ==>
            after[l].count == s[l].count && after[l].dereference == s[l].dereference)
  {
  }
}
