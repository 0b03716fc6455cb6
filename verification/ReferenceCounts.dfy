/**
 When a followed singleton's reference count is the number of live Handle slots that name it.

 The stored count is documented as that number. One action keeps it exact if and only if every
 launcher it newly names is discovered and countable; the zero launcher is not counted.
 */
module ReferenceCounts {
  import opened Common
  import opened Registry
  import opened SlotChain
  import opened References

  function CountOf(s: Store, x: Bytes32): nat {
    if x in s then s[x].count else 0
  }

  function Naming(live: Live, x: Bytes32): set<Bytes32> {
    set h | h in live && live[h].Names(x)
  }

  /** Every non-zero launcher's count is the number of live slots naming it. */
  ghost predicate Exact(s: Store, live: Live) {
    forall x :: x != ZERO ==> CountOf(s, x) == |Naming(live, x)|
  }

  function OneIf(b: bool): nat {
    if b then 1 else 0
  }

  lemma NamingReplaced(live: Live, c: SlotValue, x: Bytes32)
    requires c.handle in live
    ensures |Naming(live[c.handle := c], x)| + OneIf(live[c.handle].Names(x)) == |Naming(live, x)| + OneIf(c.Names(x))
  {
    var live', h := live[c.handle := c], c.handle;
    NamingSplit(live, h, x);
    NamingSplit(live', h, x);
    assert Naming(live, x) - {h} == Naming(live', x) - {h};
  }

  lemma NamingSplit(live: Live, h: Bytes32, x: Bytes32)
    requires h in live
    ensures |Naming(live, x)| == |Naming(live, x) - {h}| + OneIf(live[h].Names(x))
  {
    if live[h].Names(x) {
      assert Naming(live, x) == (Naming(live, x) - {h}) + {h};
    } else {
      assert Naming(live, x) == Naming(live, x) - {h};
    }
  }

  lemma NamingInserted(live: Live, c: SlotValue, x: Bytes32)
    requires c.handle !in live
    ensures |Naming(live[c.handle := c], x)| == |Naming(live, x)| + OneIf(c.Names(x))
  {
    assert Naming(live[c.handle := c], x) == Naming(live, x) + (if c.Names(x) then {c.handle} else {});
  }

  lemma NamingBounded(live: Live, x: Bytes32)
    ensures |Naming(live, x)| <= |live|
  {
    SubsetSize(Naming(live, x), live.Keys);
  }

  lemma SubsetSize<T>(a: set<T>, b: set<T>)
    requires a <= b
    ensures |a| <= |b|
  {
    assert |b - a| == |b| - |a|;
  }

  // ---------------------------------------------------------------------------------
  // Discoveries
  // ---------------------------------------------------------------------------------

  /** A discovery of `x` adds one: it is unknown, followed with a state, or known with a zero count. */
  predicate Countable(s: Store, x: Bytes32) {
    x !in s || Following(s[x]) || s[x].count == 0
  }

  predicate Listed(rs: seq<Reference>, x: Bytes32) {
    exists r :: r in rs && r.launcher == x
  }

  lemma DiscoverCounts(s: Store, r: Reference, height: u32, d: Discovery, x: Bytes32)
    requires Consistent(s) && (x in s ==> s[x].count < MAX_U32)
    ensures
      var s' := Apply(s, Discover(r, height, d));
      && CountOf(s', x) == CountOf(s, x) + OneIf(x == r.launcher && Countable(s, x))
      && (x != r.launcher ==> (x in s' <==> x in s) && (x in s ==> s'[x] == s[x]))
      && (x == r.launcher ==> CountOf(s', x) > 0)
  {
  }

  lemma TwoReferences(spent: seq<SlotValue>, created: seq<SlotValue>, owner: Bytes32, resolved: Bytes32,
                      p: PuzzleHashes,
                      s: Store, height: u32, view: BlockView, x: Bytes32)
    requires Consistent(s) && (x in s ==> s[x].count < MAX_U32)
    ensures
      var rs := NewReferences(spent, created, owner, resolved, p);
      var s' := Changed(s, Discoveries(rs, height, view));
      && CountOf(s', x) == CountOf(s, x) + OneIf(Listed(rs, x) && Countable(s, x))
      && (Listed(rs, x) ==> CountOf(s', x) > 0)
      && (!Listed(rs, x) ==> (x in s' <==> x in s))
      && Consistent(s')
  {
    var rs := NewReferences(spent, created, owner, resolved, p);
    ZeroCountIffDereferenced(s, Discoveries(rs, height, view));
    if |rs| == 0 {
    } else if |rs| == 1 {
      assert rs == [rs[0]];
      OneDiscovery(s, rs[0], height, view, x);
    } else {
      assert rs == [rs[0], rs[1]] && rs[0].launcher != rs[1].launcher;
      TwoDiscoveries(s, rs[0], rs[1], height, view, x);
    }
  }

  lemma OneDiscovery(s: Store, r: Reference, height: u32, view: BlockView, x: Bytes32)
    requires Consistent(s) && (x in s ==> s[x].count < MAX_U32)
    ensures
      var s' := Changed(s, Discoveries([r], height, view));
      && CountOf(s', x) == CountOf(s, x) + OneIf(Listed([r], x) && Countable(s, x))
      && (Listed([r], x) ==> CountOf(s', x) > 0)
      && (!Listed([r], x) ==> (x in s' <==> x in s))
  {
    DiscoveriesOfTwo(r, r, height, view);
    var c := Discover(r, height, Search(view, r));
    ChangedByTwo(s, c, c);
    DiscoverCounts(s, r, height, Search(view, r), x);
    assert Listed([r], x) <==> x == r.launcher by {
      assert r in [r];
    }
  }

  lemma TwoDiscoveries(s: Store, a: Reference, b: Reference, height: u32, view: BlockView, x: Bytes32)
    requires Consistent(s) && (x in s ==> s[x].count < MAX_U32) && a.launcher != b.launcher
    ensures
      var s' := Changed(s, Discoveries([a, b], height, view));
      && CountOf(s', x) == CountOf(s, x) + OneIf(Listed([a, b], x) && Countable(s, x))
      && (Listed([a, b], x) ==> CountOf(s', x) > 0)
      && (!Listed([a, b], x) ==> (x in s' <==> x in s))
  {
    DiscoveriesOfTwo(a, b, height, view);
    var c0, c1 := Discover(a, height, Search(view, a)), Discover(b, height, Search(view, b));
    ChangedByTwo(s, c0, c1);
    ChangeKeepsConsistent(s, c0);
    DiscoverCounts(s, a, height, Search(view, a), x);
    assert Listed([a, b], x) <==> x == a.launcher || x == b.launcher by {
      assert a in [a, b] && b in [a, b];
    }
    if x != a.launcher {
      DiscoverCounts(Apply(s, c0), b, height, Search(view, b), x);
    }
  }

  // ---------------------------------------------------------------------------------
  // Replaced slots
  // ---------------------------------------------------------------------------------

  /**
   Comparing a replaced slot with its replacement: vanished launchers lose one, and a named launcher at
   zero gains one.
   */
  lemma PairCounts(s: Store, sp: SlotValue, c: SlotValue, height: u32, x: Bytes32)
    requires Consistent(s) && (x in s ==> s[x].count < MAX_U32)
    ensures
      var s' := Changed(s, PairChanges(sp, c, height));
      && Consistent(s')
      && CountOf(s', x) ==
           (if sp.Names(x) && !c.Names(x) then SatSub(CountOf(s, x), 1)
            else if c.Names(x) && x in s && s[x].count == 0 then 1
            else CountOf(s, x))
  {
    var gone := Dereferenced(sp, c);
    var drops := Drops(gone, height);
    ZeroCountIffDereferenced(s, PairChanges(sp, c, height));
    ZeroCountIffDereferenced(s, drops);
    GoneIs(sp, c, x);
    DropsCount(s, gone, height, x);
    RebumpedCounts(s, drops, sp, c, x);
  }

  lemma GoneIs(sp: SlotValue, c: SlotValue, x: Bytes32)
    ensures x in Dereferenced(sp, c) <==> sp.Names(x) && !c.Names(x)
    ensures |Dereferenced(sp, c)| <= 2
    ensures |Dereferenced(sp, c)| == 2 ==> Dereferenced(sp, c)[0] != Dereferenced(sp, c)[1]
  {
  }

  lemma RebumpedCounts(s: Store, drops: seq<Change>, sp: SlotValue, c: SlotValue, x: Bytes32)
    requires Consistent(Changed(s, drops))
    requires x in Changed(s, drops) <==> x in s
    requires CountOf(Changed(s, drops), x)
         == (if sp.Names(x) && !c.Names(x) then SatSub(CountOf(s, x), 1) else CountOf(s, x))
    requires x in s ==> s[x].count < MAX_U32
    ensures CountOf(Changed(s, drops + [Rebump(c.owner), Rebump(c.resolved)]), x) ==
           (if sp.Names(x) && !c.Names(x) then SatSub(CountOf(s, x), 1)
            else if c.Names(x) && x in s && s[x].count == 0 then 1
            else CountOf(s, x))
  {
    PairInSteps(s, drops, c);
    TwoRebumps(Changed(s, drops), c, x);
  }

  lemma TwoRebumps(s: Store, c: SlotValue, x: Bytes32)
    requires Consistent(s) && (x in s ==> s[x].count < MAX_U32)
    ensures CountOf(Apply(Apply(s, Rebump(c.owner)), Rebump(c.resolved)), x)
         == (if c.Names(x) && x in s && s[x].count == 0 then 1 else CountOf(s, x))
  {
    ChangeKeepsConsistent(s, Rebump(c.owner));
    RebumpCount(s, c.owner, x);
    RebumpCount(Apply(s, Rebump(c.owner)), c.resolved, x);
  }

  lemma RebumpCount(s: Store, l: Bytes32, x: Bytes32)
    requires Consistent(s) && (x in s ==> s[x].count < MAX_U32)
    ensures
      var s' := Apply(s, Rebump(l));
      && (x in s' <==> x in s)
      && (x in s ==> s'[x].count == if l == x && s[x].count == 0 then 1 else s[x].count)
  {
  }

  lemma DropCounts(s: Store, l: Bytes32, height: u32, x: Bytes32)
    ensures x in Apply(s, Drop(l, height)) <==> x in s
    ensures CountOf(Apply(s, Drop(l, height)), x) == (if l == x then SatSub(CountOf(s, x), 1) else CountOf(s, x))
  {
  }

  lemma DropsCount(s: Store, gone: seq<Bytes32>, height: u32, x: Bytes32)
    requires |gone| <= 2 && (|gone| == 2 ==> gone[0] != gone[1])
    ensures x in Changed(s, Drops(gone, height)) <==> x in s
    ensures CountOf(Changed(s, Drops(gone, height)), x)
         == (if x in gone then SatSub(CountOf(s, x), 1) else CountOf(s, x))
  {
    if |gone| > 0 {
      var a, b := gone[0], gone[|gone| - 1];
      DropsOfTwo(a, b, height);
      ChangedByTwo(s, Drop(a, height), Drop(b, height));
      DropCounts(s, a, height, x);
      if |gone| == 1 {
        assert gone == [a];
      } else {
        assert gone == [a, b];
        DropCounts(Apply(s, Drop(a, height)), b, height, x);
      }
    }
  }

  // ---------------------------------------------------------------------------------
  // One action
  // ---------------------------------------------------------------------------------

  /**
   The program learns of a newly named launcher: the spent slots did not name it, and its full puzzle
   hash is known.
   */
  predicate Learned(spent: seq<SlotValue>, c: SlotValue, p: PuzzleHashes, x: Bytes32) {
    c.Names(x) && !NamedIn(spent, x) && (x == c.owner || p.resolvedFull.Some?)
  }

  /** What keeps the counts exact over one action; it can be read off the action and the store before it. */
  predicate Clean(s: Store, log: ActionLog) {
    match log
    case RegisterLog(sl, sr, _, c, _, _, p) =>
      forall x :: x in [c.owner, c.resolved] && x != ZERO ==> Learned([sl, sr], c, p, x) && Countable(s, x)
    case ExpireLog(sp, c, _, p) => CleanReplacement(s, sp, c, p)
    case ExecuteUpdateLog(sp, c, _, p) => CleanReplacement(s, sp, c, p)
    case _ => true
  }

  predicate CleanReplacement(s: Store, sp: SlotValue, c: SlotValue, p: PuzzleHashes) {
    forall x :: x in [c.owner, c.resolved] && x != ZERO && !sp.Names(x) ==>
      (x in s && s[x].count == 0) || (Learned([sp], c, p, x) && Countable(s, x))
  }

  lemma ListedIsLearned(spent: seq<SlotValue>, created: seq<SlotValue>, c: SlotValue, p: PuzzleHashes, x: Bytes32)
    requires c in created
    ensures Listed(NewReferences(spent, created, c.owner, c.resolved, p), x) <==> Learned(spent, c, p, x)
  {
    var rs := NewReferences(spent, created, c.owner, c.resolved, p);
    if Learned(spent, c, p, x) {
      if x == c.owner {
        assert Reference(x, p.ownerFull, p.ownerInner) in rs;
      } else {
        assert Reference(x, p.resolvedFull.value, p.resolvedInner) in rs;
      }
    }
  }

  /** Counts around one action, launcher by launcher. */
  lemma RegisterCounts(s: Store, live: Live, log: ActionLog, height: u32, view: BlockView, x: Bytes32)
    requires Exact(s, live) && Consistent(s) && |live| < MAX_U32 - 1
    requires log.RegisterLog? && ValidLog(live, log) && log.createdHandle.handle !in live && x != ZERO
    ensures CountOf(Changed(s, LogChanges(log, height, view)), x)
         == CountOf(s, x)
            + OneIf(Learned([log.spentLeft, log.spentRight], log.createdHandle, log.hashes, x) && Countable(s, x))
    ensures |Naming(AfterLog(live, log), x)| == |Naming(live, x)| + OneIf(log.createdHandle.Names(x))
  {
    var sl, sr, cl, c, cr := log.spentLeft, log.spentRight, log.createdLeft, log.createdHandle, log.createdRight;
    NamingBounded(live, x);
    var s1 := Changed(s, Discoveries(ReferencesOf(log), height, view));
    TwoReferences([sl, sr], [cl, c, cr], c.owner, c.resolved, log.hashes, s, height, view, x);
    ListedIsLearned([sl, sr], [cl, c, cr], c, log.hashes, x);
    NamedIsCounted(live, sl, x);
    NamedIsCounted(live, sr, x);
    PairCounts(s1, sl, cl, height, x);
    var s2 := Changed(s1, PairChanges(sl, cl, height));
    PairCounts(s2, sr, cr, height, x);
    RegisterInSteps(s, log, height, view);
    RegisterNaming(live, log, x);
  }

  lemma NamedIsCounted(live: Live, v: SlotValue, x: Bytes32)
    requires v.handle in live && live[v.handle] == v
    ensures v.Names(x) ==> |Naming(live, x)| > 0
  {
    if v.Names(x) {
      assert v.handle in Naming(live, x);
    }
  }

  lemma RegisterInSteps(s: Store, log: ActionLog, height: u32, view: BlockView)
    requires log.RegisterLog?
    ensures Changed(s, LogChanges(log, height, view)) ==
      Changed(Changed(Changed(s, Discoveries(ReferencesOf(log), height, view)),
                      PairChanges(log.spentLeft, log.createdLeft, height)),
              PairChanges(log.spentRight, log.createdRight, height))
  {
    var a, b := (log.spentLeft, log.createdLeft), (log.spentRight, log.createdRight);
    var pa, pb := PairChanges(a.0, a.1, height), PairChanges(b.0, b.1, height);
    assert TrackChanges([a, b], height) == pa + pb by {
      assert [a, b][..1] == [a] && [a][..0] == [];
      assert TrackChanges([a], height) == [] + pa;
    }
    var ds := Discoveries(ReferencesOf(log), height, view);
    ChangedConcat(s, ds, pa + pb);
    ChangedConcat(Changed(s, ds), pa, pb);
  }

  lemma RegisterNaming(live: Live, log: ActionLog, x: Bytes32)
    requires log.RegisterLog? && ValidLog(live, log) && log.createdHandle.handle !in live
    ensures |Naming(AfterLog(live, log), x)| == |Naming(live, x)| + OneIf(log.createdHandle.Names(x))
  {
    AfterLogCases(live, log);
    var l1 := live[log.spentLeft.handle := log.createdLeft];
    NamingReplaced(live, log.createdLeft, x);
    var l2 := l1[log.createdHandle.handle := log.createdHandle];
    NamingInserted(l1, log.createdHandle, x);
    assert l2[log.spentRight.handle] == log.spentRight;
    NamingReplaced(l2, log.createdRight, x);
  }

  lemma ReplacementCounts(s: Store, live: Live, log: ActionLog, height: u32, view: BlockView, x: Bytes32)
    requires Exact(s, live) && Consistent(s) && |live| < MAX_U32 - 1
    requires Replacement(log).Some? && ValidLog(live, log) && x != ZERO
    ensures
      var (sp, c) := Replacement(log).value;
      var before, after := CountOf(s, x), CountOf(Changed(s, LogChanges(log, height, view)), x);
      && (sp.Names(x) && !c.Names(x) ==> after == before - 1)
      && (sp.Names(x) == c.Names(x) ==> after == before)
      && (!sp.Names(x) && c.Names(x) ==>
            (after == before + 1 <==> (x in s && s[x].count == 0) || (Listed(ReferencesOf(log), x) && Countable(s, x))))
    ensures
      var (sp, c) := Replacement(log).value;
      |Naming(AfterLog(live, log), x)| + OneIf(sp.Names(x)) == |Naming(live, x)| + OneIf(c.Names(x))
  {
    var (sp, c) := Replacement(log).value;
    NamingBounded(live, x);
    NamedIsCounted(live, sp, x);
    AfterLogCases(live, log);
    NamingReplaced(live, c, x);
    var ds := Discoveries(ReferencesOf(log), height, view);
    var s1 := Changed(s, ds);
    ReplacementReferences(s, live, log, height, view, x);
    PairCounts(s1, sp, c, height, x);
    assert TrackChanges([(sp, c)], height) == PairChanges(sp, c, height) by {
      assert [(sp, c)][..0] == [];
      assert TrackChanges([], height) + PairChanges(sp, c, height) == PairChanges(sp, c, height);
    }
    ChangedConcat(s, ds, PairChanges(sp, c, height));
  }

  lemma ReplacementReferences(s: Store, live: Live, log: ActionLog, height: u32, view: BlockView, x: Bytes32)
    requires Consistent(s) && (x in s ==> s[x].count < MAX_U32)
    requires Replacement(log).Some?
    ensures
      var (sp, c) := Replacement(log).value;
      var rs := ReferencesOf(log);
      var s' := Changed(s, Discoveries(rs, height, view));
      && CountOf(s', x) == CountOf(s, x) + OneIf(Listed(rs, x) && Countable(s, x))
      && (Listed(rs, x) ==> CountOf(s', x) > 0 && c.Names(x) && !sp.Names(x))
      && (!Listed(rs, x) ==> (x in s' <==> x in s))
      && Consistent(s')
  {
    var (sp, c) := Replacement(log).value;
    if log.ExpireLog? || log.ExecuteUpdateLog? {
      TwoReferences([sp], [c], c.owner, c.resolved, log.hashes, s, height, view, x);
      ListedIsLearned([sp], [c], c, log.hashes, x);
      assert NamedIn([sp], x) <==> sp.Names(x) by {
        assert sp in [sp];
      }
    } else {
      assert Discoveries([], height, view) == [];
    }
  }

  /**
   One valid action keeps every count exact if and only if it is clean: for an exact store before,
   the store after it is exact for the live slots after it exactly when the condition holds.
   */
  lemma LogKeepsExactIff(s: Store, live: Live, lo: Bytes32, hi: Bytes32, log: ActionLog, height: u32, view: BlockView)
    requires Exact(s, live) && Consistent(s) && |live| < MAX_U32 - 1
    requires Chain(live, lo, hi) && ValidLog(live, log)
    ensures Exact(Changed(s, LogChanges(log, height, view)), AfterLog(live, log)) <==> Clean(s, log)
  {
    var s', live' := Changed(s, LogChanges(log, height, view)), AfterLog(live, log);
    if log.RegisterLog? {
      InsertKeepsChain(live, log.spentLeft, log.createdHandle, log.spentRight, lo, hi);
      RegisterExactIff(s, live, log, height, view);
    } else if Replacement(log).Some? {
      ReplacementExactIff(s, live, log, height, view);
    } else {
      AfterLogCases(live, log);
      assert LogChanges(log, height, view) == [];
    }
  }

  lemma RegisterExactIff(s: Store, live: Live, log: ActionLog, height: u32, view: BlockView)
    requires Exact(s, live) && Consistent(s) && |live| < MAX_U32 - 1
    requires log.RegisterLog? && ValidLog(live, log) && log.createdHandle.handle !in live
    ensures Exact(Changed(s, LogChanges(log, height, view)), AfterLog(live, log)) <==> Clean(s, log)
  {
    var s', live', c := Changed(s, LogChanges(log, height, view)), AfterLog(live, log), log.createdHandle;
    forall x | x != ZERO
      ensures CountOf(s', x) == |Naming(live', x)| <==>
                (x in [c.owner, c.resolved] ==>
                   Learned([log.spentLeft, log.spentRight], c, log.hashes, x) && Countable(s, x))
    {
      RegisterCounts(s, live, log, height, view, x);
      assert x in [c.owner, c.resolved] <==> c.Names(x);
    }
  }

  /** A launcher the created value newly names is counted: re-referenced at zero, or discovered by this action. */
  predicate CountedBy(s: Store, log: ActionLog, x: Bytes32)
    requires Replacement(log).Some?
  {
    var (sp, c) := Replacement(log).value;
    c.Names(x) && !sp.Names(x) ==> (x in s && s[x].count == 0) || (Listed(ReferencesOf(log), x) && Countable(s, x))
  }

  lemma ReplacementExactAt(s: Store, live: Live, log: ActionLog, height: u32, view: BlockView, x: Bytes32)
    requires Exact(s, live) && Consistent(s) && |live| < MAX_U32 - 1
    requires Replacement(log).Some? && ValidLog(live, log) && x != ZERO
    ensures CountOf(Changed(s, LogChanges(log, height, view)), x) == |Naming(AfterLog(live, log), x)|
       <==> CountedBy(s, log, x)
  {
    ReplacementCounts(s, live, log, height, view, x);
  }

  lemma CleanIsCounted(s: Store, live: Live, log: ActionLog)
    requires Replacement(log).Some? && ValidLog(live, log)
    ensures Clean(s, log) <==> forall x :: x != ZERO ==> CountedBy(s, log, x)
  {
    var (sp, c) := Replacement(log).value;
    if log.ExpireLog? || log.ExecuteUpdateLog? {
      forall x | x != ZERO
        ensures CountedBy(s, log, x) <==> (x in [c.owner, c.resolved] && !sp.Names(x) ==>
                  (x in s && s[x].count == 0) || (Learned([sp], c, log.hashes, x) && Countable(s, x)))
      {
        ListedIsLearned([sp], [c], c, log.hashes, x);
        assert x in [c.owner, c.resolved] <==> c.Names(x);
      }
      assert Clean(s, log) <==> CleanReplacement(s, sp, c, log.hashes);
      assert CleanReplacement(s, sp, c, log.hashes) ==> forall x :: x != ZERO ==> CountedBy(s, log, x);
    } else {
      assert SameParties(sp, c);
      forall x | x != ZERO ensures CountedBy(s, log, x) {
        assert c.Names(x) <==> sp.Names(x);
      }
    }
  }

  lemma ReplacementExactIff(s: Store, live: Live, log: ActionLog, height: u32, view: BlockView)
    requires Exact(s, live) && Consistent(s) && |live| < MAX_U32 - 1
    requires Replacement(log).Some? && ValidLog(live, log)
    ensures Exact(Changed(s, LogChanges(log, height, view)), AfterLog(live, log)) <==> Clean(s, log)
  {
    CleanIsCounted(s, live, log);
    forall x | x != ZERO
      ensures CountOf(Changed(s, LogChanges(log, height, view)), x) == |Naming(AfterLog(live, log), x)| <==>
        CountedBy(s, log, x)
    {
      ReplacementExactAt(s, live, log, height, view, x);
    }
  }

  // ---------------------------------------------------------------------------------
  // Runs without rollbacks
  // ---------------------------------------------------------------------------------

  datatype Event = Log(log: ActionLog, height: u32, view: BlockView) | Peak(height: u32, view: BlockView)

  function StoreAfter(s: Store, ev: Event): Store {
    match ev
    case Log(log, height, view) => Changed(s, LogChanges(log, height, view))
    case Peak(height, view) => Apply(Apply(s, Block(height, view)), Cleanup(height))
  }

  function LiveAfter(live: Live, ev: Event): Live {
    if ev.Log? then AfterLog(live, ev.log) else live
  }

  function StoreAt(s: Store, evs: seq<Event>): Store {
    if evs == [] then s else StoreAfter(StoreAt(s, evs[..|evs| - 1]), evs[|evs| - 1])
  }

  function LiveAt(live: Live, evs: seq<Event>): Live {
    if evs == [] then live else LiveAfter(LiveAt(live, evs[..|evs| - 1]), evs[|evs| - 1])
  }

  /** Every action is valid and clean where it happens, and there is room for one more count. */
  predicate CleanRun(s: Store, live: Live, evs: seq<Event>) {
    evs == [] ||
    (var front, ev := evs[..|evs| - 1], evs[|evs| - 1];
     CleanRun(s, live, front)
     && (ev.Log? ==>
           ValidLog(LiveAt(live, front), ev.log) && Clean(StoreAt(s, front), ev.log)
           && |LiveAt(live, front)| < MAX_U32 - 1))
  }

  lemma PeakKeepsCounts(s: Store, height: u32, view: BlockView)
    requires Consistent(s)
    ensures forall x :: CountOf(StoreAfter(s, Peak(height, view)), x) == CountOf(s, x)
    ensures Consistent(StoreAfter(s, Peak(height, view)))
  {
  }

  /** In every rollback-free clean run, each non-zero launcher's count is the number of live slots naming it. */
  lemma {:induction false} CleanRunIsExact(s: Store, live: Live, lo: Bytes32, hi: Bytes32, evs: seq<Event>)
    requires Exact(s, live) && Consistent(s) && Chain(live, lo, hi)
    requires CleanRun(s, live, evs)
    ensures Exact(StoreAt(s, evs), LiveAt(live, evs))
    ensures Consistent(StoreAt(s, evs)) && Chain(LiveAt(live, evs), lo, hi)
  {
    if evs != [] {
      var front, ev := evs[..|evs| - 1], evs[|evs| - 1];
      CleanRunIsExact(s, live, lo, hi, front);
      var s1, live1 := StoreAt(s, front), LiveAt(live, front);
      match ev {
        case Log(log, height, view) =>
          LogKeepsExactIff(s1, live1, lo, hi, log, height, view);
          LogKeepsChain(live1, log, lo, hi);
          ZeroCountIffDereferenced(s1, LogChanges(log, height, view));
        case Peak(height, view) =>
          PeakKeepsCounts(s1, height, view);
      }
    }
  }

  /** The launch state is exact: nothing is followed and the end slots name only the zero launcher. */
  lemma LaunchIsExact(live: Live)
    requires forall h, x :: h in live && x != ZERO ==> !live[h].Names(x)
    ensures Exact(map[], live)
  {
    forall x | x != ZERO ensures |Naming(live, x)| == 0 {
      assert Naming(live, x) == {};
    }
  }

  const FIRST: SlotValue := SlotValue(0, 1, 0, 9, 0, ZERO, ZERO)

  const LAST: SlotValue := SlotValue(0, 9, 1, 0, 0, ZERO, ZERO)

  /** A registration of a handle for launcher 5, between two slots. */
  function RegisterFor5(l: SlotValue, handle: Bytes32, r: SlotValue): ActionLog {
    RegisterLog(l, r, l.(counter := l.counter + 1, right := handle),
                SlotValue(0, handle, l.handle, r.handle, 0, 5, 5),
                r.(counter := r.counter + 1, left := handle),
                Purchase("new", 0, 0), PuzzleHashes(0, 0, None, 0))
  }

  /** Handle 4 is registered in the launched registry, then handle 6 beside it. */
  function FirstRegistration(): ActionLog {
    RegisterFor5(FIRST, 4, LAST)
  }

  function SecondRegistration(): ActionLog {
    RegisterFor5(FirstRegistration().createdHandle, 6, FirstRegistration().createdRight)
  }

  function Launched(): Live {
    map[1 := FIRST, 9 := LAST]
  }

  lemma LaunchedIsChain()
    ensures Chain(Launched(), 1, 9) && |Launched()| == 2 && Exact(map[], Launched())
  {
    LaunchIsExact(Launched());
  }

  lemma FirstIsValid()
    ensures ValidLog(Launched(), FirstRegistration()) && Clean(map[], FirstRegistration())
  {
  }

  lemma FirstIsClean(height: u32, view: BlockView)
    ensures ValidLog(Launched(), FirstRegistration())
    ensures Exact(Changed(map[], LogChanges(FirstRegistration(), height, view)),
                  AfterLog(Launched(), FirstRegistration()))
  {
    FirstIsValid();
    LaunchedIsChain();
    LogKeepsExactIff(map[], Launched(), 1, 9, FirstRegistration(), height, view);
  }

  lemma SecondIsNotClean(s: Store)
    ensures ValidLog(AfterLog(Launched(), FirstRegistration()), SecondRegistration())
    ensures !Clean(s, SecondRegistration())
    ensures |AfterLog(Launched(), FirstRegistration())| == 3
  {
    var log, next := FirstRegistration(), SecondRegistration();
    AfterLogCases(Launched(), log);
    assert AfterLog(Launched(), log) == map[1 := log.createdLeft, 4 := log.createdHandle, 9 := log.createdRight];
    assert 5 in [next.createdHandle.owner, next.createdHandle.resolved];
    assert log.createdHandle in [next.spentLeft, next.spentRight] && log.createdHandle.Names(5);
  }

  /**
   The documented meaning does fail on runs from a launch: after a clean registration for a launcher,
   a second one for the same launcher beside it adds a live slot naming it and no count.
   */
  lemma SharedNeighbourIsNotCounted(height: u32, view: BlockView, later: u32, laterView: BlockView)
    ensures
      var s := Changed(map[], LogChanges(FirstRegistration(), height, view));
      var live := AfterLog(Launched(), FirstRegistration());
      && Exact(s, live) && ValidLog(live, SecondRegistration())
      && !Exact(Changed(s, LogChanges(SecondRegistration(), later, laterView)), AfterLog(live, SecondRegistration()))
  {
    var s := Changed(map[], LogChanges(FirstRegistration(), height, view));
    var live := AfterLog(Launched(), FirstRegistration());
    FirstIsClean(height, view);
    SecondIsNotClean(s);
    LaunchedIsChain();
    LogKeepsChain(Launched(), FirstRegistration(), 1, 9);
    ZeroCountIffDereferenced(map[], LogChanges(FirstRegistration(), height, view));
    LogKeepsExactIff(s, live, 1, 9, SecondRegistration(), later, laterView);
  }
}
