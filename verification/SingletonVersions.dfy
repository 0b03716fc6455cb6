/** The followed singletons' pruned records against the unpruned log of every state each has shown. */
module SingletonVersions {
  import opened Common
  import opened Registry
  import opened Versions
  import opened References
  import Indexer

  type Log = seq<Entry<SingletonState>>

  type Logs = map<Bytes32, Log>

  function LogAt(j: Logs, l: Bytes32): Log {
    if l in j then j[l] else []
  }

  /** The state a block shows for one record: a late discovery, or the successor of its coin. */
  function Shown(l: Bytes32, f: Followed, height: u32, view: BlockView): Log {
    match f.status
    case Incomplete =>
      (match Search(view, Reference(l, f.full, f.inner)) case Found(st) => [Entry(height, st)] case _ => [])
    case Mismatch => []
    case Active =>
      if f.versions.current.None? || f.versions.current.value.state.melted
         || f.versions.current.value.state.coin !in view.next then []
      else [Entry(height, view.next[f.versions.current.value.state.coin])]
  }

  /** Logs grow by what is shown, are truncated by rollbacks, and go when their record goes. */
  function LogsAfter(s: Store, j: Logs, c: Change): Logs {
    match c
    case Discover(r, height, d) =>
      if (r.launcher in s && Following(s[r.launcher])) || !d.Found? then j
      else j[r.launcher := LogAt(j, r.launcher) + [Entry(height, d.state)]]
    case Block(height, view) => map l | l in s :: LogAt(j, l) + Shown(l, s[l], height, view)
    case Cleanup(peak) => map l | l in s && !Final(s[l], peak) :: LogAt(j, l)
    case Rollback(from) => map l | l in s && s[l].discovery < from :: Below(LogAt(j, l), from)
    case _ => j
  }

  function HighAfter(hw: nat, c: Change): nat {
    match c
    case Discover(_, height, _) => Max(hw, height)
    case Block(height, _) => Max(hw, height)
    case _ => hw
  }

  /**
   A rollback stays within the retention, and a block shows no launcher a state older than the last
   one that launcher has. Nothing is asked across launchers: a registry spend may be replayed, with
   its discoveries, before the blocks below it are followed.
   */
  ghost predicate InTime(s: Store, j: Logs, hw: nat, c: Change) {
    match c
    case Block(height, view) => forall l :: l in s ==> Newer(LogAt(j, l), Shown(l, s[l], height, view))
    case Rollback(from) => SatSub(hw, RETENTION) <= from
    case _ => true
  }

  predicate Newer(log: Log, shown: Log) {
    log != [] && shown != [] ==> LastOf(log).value.height <= shown[0].height
  }

  /** A record stands for its log; one that was never found, or lost everything, holds nothing. */
  ghost predicate TracksAt(f: Followed, log: Log, hw: nat) {
    Refines(f.versions, log, hw) && (f.status != Active ==> f.versions == Record(None, []))
  }

  ghost predicate Tracks(s: Store, j: Logs, hw: nat) {
    j.Keys <= s.Keys && forall l :: l in s ==> TracksAt(s[l], LogAt(j, l), hw)
  }

  lemma FirstState<T>(e: Entry<T>, hw: nat)
    ensures Refines(Record(Some(e), []), [e], hw)
  {
    assert Held(Record(Some(e), [])) == [e];
  }

  lemma NoState(f: Followed, log: Log, hw: nat)
    requires Refines(f.versions, log, hw) && f.versions.current.None?
    ensures log == [] && f.versions == Record(None, [])
  {
  }

  lemma TracksMono(s: Store, j: Logs, hw: nat, hw': nat)
    requires Tracks(s, j, hw) && hw <= hw'
    ensures Tracks(s, j, hw')
  {
    forall l | l in s ensures TracksAt(s[l], LogAt(j, l), hw') {
      Indexer.RefinesMono(s[l].versions, LogAt(j, l), hw, hw');
    }
  }

  /** A launcher that is not being followed has an empty log and no history. */
  lemma IdleHasNoLog(s: Store, j: Logs, hw: nat, x: Bytes32)
    requires Tracks(s, j, hw) && !(x in s && Following(s[x]))
    ensures LogAt(j, x) == [] && (x in s ==> s[x].versions.history == [])
  {
    if x in s {
      assert TracksAt(s[x], LogAt(j, x), hw);
      NoState(s[x], LogAt(j, x), hw);
    }
  }

  /** A discovery then starts a fresh log. */
  lemma DiscoveredTracksAt(s: Store, r: Reference, height: u32, d: Discovery, hw: nat)
    requires r.launcher in s ==> s[r.launcher].versions.history == []
    ensures TracksAt(Discovered(s, r, height, d), if d.Found? then [Entry(height, d.state)] else [], hw)
  {
    FreshTracks(Discovered(s, r, height, d), if d.Found? then [Entry(height, d.state)] else [], hw);
  }

  lemma FreshTracks(f: Followed, shown: Log, hw: nat)
    requires |shown| <= 1 && f.versions == Record(LastOf(shown), []) && (shown != [] ==> f.status == Active)
    ensures TracksAt(f, shown, hw)
  {
    if shown == [] {
      EmptyRefines<SingletonState>(hw);
    } else {
      assert shown == [shown[0]];
      FirstState(shown[0], hw);
    }
  }

  lemma DiscoverTracks(s: Store, j: Logs, hw: nat, r: Reference, height: u32, d: Discovery)
    requires Tracks(s, j, hw)
    ensures
      var c := Discover(r, height, d);
      Tracks(Apply(s, c), LogsAfter(s, j, c), HighAfter(hw, c))
  {
    var hw', x := Max(hw, height), r.launcher;
    TracksMono(s, j, hw, hw');
    if x in s && Following(s[x]) {
      SameLogTracks(s, j, hw', x, Bumped(s[x]));
    } else {
      IdleHasNoLog(s, j, hw', x);
      DiscoveredTracksAt(s, r, height, d, hw');
      if d.Found? {
        assert LogAt(j, x) + [Entry(height, d.state)] == [Entry(height, d.state)];
        StoreTracks(s, j, hw', x, Discovered(s, r, height, d), [Entry(height, d.state)]);
      } else {
        SameLogTracks(s, j, hw', x, Discovered(s, r, height, d));
      }
    }
  }

  lemma StoreTracks(s: Store, j: Logs, hw: nat, x: Bytes32, f: Followed, log: Log)
    requires Tracks(s, j, hw) && TracksAt(f, log, hw)
    ensures Tracks(s[x := f], j[x := log], hw)
  {
    var s', j' := s[x := f], j[x := log];
    forall l | l in s' ensures TracksAt(s'[l], LogAt(j', l), hw) {
      if l != x {
        assert TracksAt(s[l], LogAt(j, l), hw);
        assert LogAt(j', l) == LogAt(j, l);
      }
    }
  }

  /** Changes of counts, and records without a state, leave the logs alone. */
  lemma SameLogTracks(s: Store, j: Logs, hw: nat, x: Bytes32, f: Followed)
    requires Tracks(s, j, hw) && TracksAt(f, LogAt(j, x), hw)
    ensures Tracks(s[x := f], j, hw)
  {
    var s' := s[x := f];
    forall l | l in s' ensures TracksAt(s'[l], LogAt(j, l), hw) {
      if l != x {
        assert TracksAt(s[l], LogAt(j, l), hw);
      }
    }
  }

  lemma BlockTracksAt(l: Bytes32, f: Followed, log: Log, hw: nat, height: u32, view: BlockView)
    requires TracksAt(f, log, hw) && Newer(log, Shown(l, f, height, view))
    ensures TracksAt(AfterBlock(l, f, height, view), log + Shown(l, f, height, view), Max(hw, height))
  {
    Indexer.RefinesMono(f.versions, log, hw, Max(hw, height));
    var shown := Shown(l, f, height, view);
    if shown == [] {
      assert log + shown == log;
    } else if f.status == Incomplete {
      NoState(f, log, hw);
      FirstState(shown[0], Max(hw, height));
      assert log + shown == [shown[0]];
    } else {
      PushRefines(f.versions, log, hw, shown[0], height);
    }
  }

  lemma RollbackTracksAt(f: Followed, log: Log, hw: nat, from: u32)
    requires TracksAt(f, log, hw) && SatSub(hw, RETENTION) <= from
    ensures TracksAt(Restored(f, from), Below(log, from), hw)
    ensures Restored(f, from).versions.current == Latest(log, from)
  {
    RollbackRefines(f.versions, log, hw, from);
  }

  lemma BlockTracks(s: Store, j: Logs, hw: nat, height: u32, view: BlockView)
    requires Tracks(s, j, hw) && InTime(s, j, hw, Block(height, view))
    ensures Tracks(Apply(s, Block(height, view)), LogsAfter(s, j, Block(height, view)), Max(hw, height))
  {
    var s', j' := Apply(s, Block(height, view)), LogsAfter(s, j, Block(height, view));
    forall l | l in s' ensures TracksAt(s'[l], LogAt(j', l), Max(hw, height)) {
      BlockTracksAt(l, s[l], LogAt(j, l), hw, height, view);
    }
  }

  lemma CleanupTracks(s: Store, j: Logs, hw: nat, peak: u32)
    requires Tracks(s, j, hw)
    ensures Tracks(Apply(s, Cleanup(peak)), LogsAfter(s, j, Cleanup(peak)), hw)
  {
    var s', j' := Apply(s, Cleanup(peak)), LogsAfter(s, j, Cleanup(peak));
    forall l | l in s' ensures TracksAt(s'[l], LogAt(j', l), hw) {
      assert TracksAt(s[l], LogAt(j, l), hw);
    }
  }

  lemma RollbackTracks(s: Store, j: Logs, hw: nat, from: u32)
    requires Tracks(s, j, hw) && SatSub(hw, RETENTION) <= from
    ensures Tracks(Apply(s, Change.Rollback(from)), LogsAfter(s, j, Change.Rollback(from)), hw)
  {
    var s', j' := Apply(s, Change.Rollback(from)), LogsAfter(s, j, Change.Rollback(from));
    forall l | l in s' ensures TracksAt(s'[l], LogAt(j', l), hw) {
      RollbackTracksAt(s[l], LogAt(j, l), hw, from);
    }
  }

  lemma ChangeTracks(s: Store, j: Logs, hw: nat, c: Change)
    requires Tracks(s, j, hw) && InTime(s, j, hw, c)
    ensures Tracks(Apply(s, c), LogsAfter(s, j, c), HighAfter(hw, c))
  {
    match c {
      case Discover(r, height, d) => DiscoverTracks(s, j, hw, r, height, d);
      case Block(height, view) => BlockTracks(s, j, hw, height, view);
      case Cleanup(peak) => CleanupTracks(s, j, hw, peak);
      case Rollback(from) => RollbackTracks(s, j, hw, from);
      case Drop(l, height) =>
        if l in s {
          SameLogTracks(s, j, hw, l, Dropped(s[l], height));
        }
      case Rebump(l) =>
        if l in s {
          SameLogTracks(s, j, hw, l, Bumped(s[l]));
        }
    }
  }

  function LogsOf(cs: seq<Change>): Logs {
    if cs == [] then map[]
    else LogsAfter(Changed(map[], cs[..|cs| - 1]), LogsOf(cs[..|cs| - 1]), cs[|cs| - 1])
  }

  function HighOf(cs: seq<Change>): nat {
    if cs == [] then 0 else HighAfter(HighOf(cs[..|cs| - 1]), cs[|cs| - 1])
  }

  ghost predicate AllInTime(cs: seq<Change>) {
    cs == []
    || (var front := cs[..|cs| - 1];
        AllInTime(front) && InTime(Changed(map[], front), LogsOf(front), HighOf(front), cs[|cs| - 1]))
  }

  /**
   Over every sequence of discoveries, follows, drops, cleanups and rollbacks no deeper than the
   retention, each followed singleton's current state is the last entry of its unpruned log.
   */
  lemma {:induction false} FollowedStatesAgreeWithLogs(cs: seq<Change>)
    requires AllInTime(cs)
    ensures Tracks(Changed(map[], cs), LogsOf(cs), HighOf(cs))
    ensures forall l :: l in Changed(map[], cs) ==>
      Changed(map[], cs)[l].versions.current == LastOf(LogAt(LogsOf(cs), l))
  {
    if cs != [] {
      FollowedStatesAgreeWithLogs(cs[..|cs| - 1]);
      ChangeTracks(Changed(map[], cs[..|cs| - 1]), LogsOf(cs[..|cs| - 1]), HighOf(cs[..|cs| - 1]), cs[|cs| - 1]);
    }
  }

  /** A registry spend replayed ahead of an earlier block is in time: its coin cannot be spent in that block. */
  lemma ReplayAheadIsInTime(r: Reference, st: SingletonState, later: u32, earlier: u32, view: BlockView)
    requires earlier < later && st.coin !in view.next
    ensures AllInTime([Discover(r, later, Found(st)), Block(earlier, view)])
  {
    var first := Discover(r, later, Found(st));
    var cs, front := [first, Block(earlier, view)], [first];
    assert cs[..1] == front && |front[..0]| == 0;
    assert AllInTime(front[..0]) && AllInTime(front);
    var s := Changed(map[], front);
    assert s == map[r.launcher := Discovered(map[], r, later, Found(st))];
    assert forall l :: l in s ==> Shown(l, s[l], earlier, view) == [];
    assert InTime(s, LogsOf(front), HighOf(front), Block(earlier, view));
  }
}
