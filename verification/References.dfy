/**
 Followed singletons and the count of Handle slots that name each of them: which launchers an
 action newly references or drops, and how the stored records change.
 */
module References {
  import opened Common
  import opened Registry
  import opened Versions

  datatype Reference = Reference(launcher: Bytes32, full: Bytes32, inner: Bytes32)

  // ---------------------------------------------------------------------------------
  // References of an action log
  // ---------------------------------------------------------------------------------

  predicate NamedIn(vs: seq<SlotValue>, x: Bytes32) {
    exists v :: v in vs && v.Names(x)
  }

  /** References introduced by creating `c` while `spent` were spent. */
  function NewReferences(spent: seq<SlotValue>, created: seq<SlotValue>, owner: Bytes32, resolved: Bytes32,
                         p: PuzzleHashes)
    : seq<Reference>
  {
    (if (exists v :: v in created && v.owner == owner) && !NamedIn(spent, owner)
     then [Reference(owner, p.ownerFull, p.ownerInner)] else [])
    + (if owner != resolved && (exists v :: v in created && v.resolved == resolved)
          && !NamedIn(spent, resolved) && p.resolvedFull.Some?
       then [Reference(resolved, p.resolvedFull.value, p.resolvedInner)] else [])
  }

  function Launchers(vs: seq<SlotValue>): seq<Bytes32> {
    if vs == [] then [] else Launchers(vs[..|vs| - 1]) + [vs[|vs| - 1].owner, vs[|vs| - 1].resolved]
  }

  lemma NamedSnoc(vs: seq<SlotValue>, v: SlotValue, x: Bytes32)
    ensures NamedIn(vs + [v], x) <==> NamedIn(vs, x) || v.Names(x)
  {
    assert forall w :: w in vs + [v] <==> w in vs || w == v;
  }

  lemma {:induction false} LaunchersAreNamed(vs: seq<SlotValue>, x: Bytes32)
    ensures x in Launchers(vs) <==> NamedIn(vs, x)
  {
    if vs != [] {
      var front, v := vs[..|vs| - 1], vs[|vs| - 1];
      LaunchersAreNamed(front, x);
      assert vs == front + [v];
      NamedSnoc(front, v, x);
      var pair := [v.owner, v.resolved];
      assert x in pair <==> v.Names(x);
      assert Launchers(vs) == Launchers(front) + pair;
    }
  }

  method RefsFromTransition(spent: seq<SlotValue>, created: seq<SlotValue>, owner: Bytes32, resolved: Bytes32,
                            p: PuzzleHashes)
    returns (out: seq<Reference>)
    ensures out == NewReferences(spent, created, owner, resolved, p)
  {
    var previously: seq<Bytes32> := [];
    for i := 0 to |spent|
      invariant previously == Launchers(spent[..i])
    {
      assert spent[..i + 1][..i] == spent[..i];
      previously := previously + [spent[i].owner, spent[i].resolved];
    }
    assert spent[..|spent|] == spent;
    LaunchersAreNamed(spent, owner);
    LaunchersAreNamed(spent, resolved);
    out := [];
    var newlyOwner := (exists v :: v in created && v.owner == owner) && owner !in previously;
    if newlyOwner {
      out := out + [Reference(owner, p.ownerFull, p.ownerInner)];
    }
    if owner != resolved {
      var newlyResolved := (exists v :: v in created && v.resolved == resolved) && resolved !in previously;
      if newlyResolved && p.resolvedFull.Some? {
        out := out + [Reference(resolved, p.resolvedFull.value, p.resolvedInner)];
      }
    }
  }

  function ReferencesOf(log: ActionLog): seq<Reference> {
    match log
    case RegisterLog(sl, sr, cl, c, cr, _, p) => NewReferences([sl, sr], [cl, c, cr], c.owner, c.resolved, p)
    case ExpireLog(s, c, _, p) => NewReferences([s], [c], c.owner, c.resolved, p)
    case ExecuteUpdateLog(s, c, _, p) => NewReferences([s], [c], c.owner, c.resolved, p)
    case _ => []
  }

  /** Launchers that disappear when `spent` is replaced by `created`. */
  function Dereferenced(spent: SlotValue, created: SlotValue): seq<Bytes32> {
    (if !created.Names(spent.owner) then [spent.owner] else [])
    + (if spent.resolved != spent.owner && !created.Names(spent.resolved) then [spent.resolved] else [])
  }

  /** The replaced and replacing slots whose launchers an action compares; a registered slot replaces nothing. */
  function Pairs(log: ActionLog): seq<(SlotValue, SlotValue)> {
    if log.RegisterLog? then [(log.spentLeft, log.createdLeft), (log.spentRight, log.createdRight)]
    else OptSeq(Replacement(log))
  }

  // ---------------------------------------------------------------------------------
  // Records and the primitive changes
  // ---------------------------------------------------------------------------------

  datatype Status = Incomplete | Mismatch | Active

  datatype SingletonState = SingletonState(coin: Bytes32, melted: bool)

  datatype Followed = Followed(
    full: Bytes32, inner: Bytes32, discovery: u32, status: Status,
    versions: Record<SingletonState>, count: u32, dereference: Option<u32>)

  type Store = map<Bytes32, Followed>

  /** What one block shows: the discovery result for a reference, and the successor of a spent coin. */
  datatype Discovery = NotFound | Several | Found(state: SingletonState)

  datatype BlockView = BlockView(found: map<Reference, Discovery>, next: map<Bytes32, SingletonState>)

  function Search(view: BlockView, r: Reference): Discovery {
    if r in view.found then view.found[r] else NotFound
  }

  datatype Change =
    | Discover(r: Reference, height: u32, result: Discovery)
    | Drop(launcher: Bytes32, height: u32)
    | Rebump(launcher: Bytes32)
    | Block(height: u32, view: BlockView)
    | Cleanup(peak: u32)
    | Rollback(from: u32)

  predicate Following(f: Followed) {
    f.status == Active && f.versions.current.Some?
  }

  function Bumped(f: Followed): Followed {
    f.(count := SatAdd32(f.count, 1), dereference := None)
  }

  function Dropped(f: Followed, height: u32): Followed {
    var n := SatSub(f.count, 1);
    f.(count := n, dereference := if n == 0 then Some(height) else f.dereference)
  }

  function Discovered(s: Store, r: Reference, height: u32, d: Discovery): Followed {
    var status := match d case NotFound => Incomplete case Several => Mismatch case Found(_) => Active;
    var current := match d case Found(st) => Some(Entry(height, st)) case _ => None;
    if r.launcher in s then
      Followed(r.full, r.inner, height, status, Record(current, s[r.launcher].versions.history),
               Max(s[r.launcher].count, 1), None)
    else Followed(r.full, r.inner, height, status, Record(current, []), 1, None)
  }

  /** Following a record through one block: retry an incomplete discovery, or take one hop. */
  function AfterBlock(l: Bytes32, f: Followed, height: u32, view: BlockView): Followed {
    match f.status
    case Incomplete =>
      (match Search(view, Reference(l, f.full, f.inner))
       case Found(st) => f.(status := Active, versions := f.versions.(current := Some(Entry(height, st))))
       case Several => f.(status := Mismatch)
       case NotFound => f)
    case Mismatch => f
    case Active =>
      if f.versions.current.None? || f.versions.current.value.state.melted
         || f.versions.current.value.state.coin !in view.next then f
      else f.(versions := Pushed(f.versions, Entry(height, view.next[f.versions.current.value.state.coin]), height))
  }

  predicate Final(f: Followed, peak: u32) {
    f.count == 0 && f.dereference.Some? && peak >= SatAdd32(f.dereference.value, 32)
  }

  function Restored(f: Followed, from: u32): Followed {
    var g := f.(versions := RolledBack(f.versions, from));
    if f.dereference.Some? && f.dereference.value >= from
    then g.(dereference := None, count := Max(f.count, 1)) else g
  }

  function Apply(s: Store, c: Change): Store {
    match c
    case Discover(r, height, d) =>
      if r.launcher in s && Following(s[r.launcher]) then s[r.launcher := Bumped(s[r.launcher])]
      else s[r.launcher := Discovered(s, r, height, d)]
    case Drop(l, height) => if l in s then s[l := Dropped(s[l], height)] else s
    case Rebump(l) => if l in s && (s[l].count == 0 || s[l].dereference.Some?) then s[l := Bumped(s[l])] else s
    case Block(height, view) => map l | l in s :: AfterBlock(l, s[l], height, view)
    case Cleanup(peak) => map l | l in s && !Final(s[l], peak) :: s[l]
    case Rollback(from) => map l | l in s && s[l].discovery < from :: Restored(s[l], from)
  }

  function Changed(s: Store, cs: seq<Change>): Store {
    if cs == [] then s else Apply(Changed(s, cs[..|cs| - 1]), cs[|cs| - 1])
  }

  lemma ChangedSnoc(s: Store, cs: seq<Change>, c: Change)
    ensures Changed(s, cs + [c]) == Apply(Changed(s, cs), c)
  {
    assert (cs + [c])[..|cs|] == cs;
  }

  lemma {:induction false} ChangedConcat(s: Store, a: seq<Change>, b: seq<Change>)
    ensures Changed(s, a + b) == Changed(Changed(s, a), b)
    decreases |b|
  {
    if b == [] {
      assert a + b == a;
    } else {
      assert a + b == (a + b[..|b| - 1]) + [b[|b| - 1]];
      ChangedSnoc(s, a + b[..|b| - 1], b[|b| - 1]);
      ChangedConcat(s, a, b[..|b| - 1]);
    }
  }

  function Discoveries(rs: seq<Reference>, height: u32, view: BlockView): seq<Change> {
    if rs == [] then []
    else Discoveries(rs[..|rs| - 1], height, view) + [Discover(rs[|rs| - 1], height, Search(view, rs[|rs| - 1]))]
  }

  function Drops(ls: seq<Bytes32>, height: u32): seq<Change> {
    if ls == [] then [] else Drops(ls[..|ls| - 1], height) + [Drop(ls[|ls| - 1], height)]
  }

  function PairChanges(s: SlotValue, c: SlotValue, height: u32): seq<Change> {
    Drops(Dereferenced(s, c), height) + [Rebump(c.owner), Rebump(c.resolved)]
  }

  function TrackChanges(pairs: seq<(SlotValue, SlotValue)>, height: u32): seq<Change> {
    if pairs == [] then []
    else
      TrackChanges(pairs[..|pairs| - 1], height)
        + PairChanges(pairs[|pairs| - 1].0, pairs[|pairs| - 1].1, height)
  }

  /** Everything one action log changes: its discoveries first, then the replaced slots' launchers. */
  function LogChanges(log: ActionLog, height: u32, view: BlockView): seq<Change> {
    Discoveries(ReferencesOf(log), height, view) + TrackChanges(Pairs(log), height)
  }

  function TransitionChanges(logs: seq<ActionLog>, height: u32, view: BlockView): seq<Change> {
    if logs == [] then []
    else TransitionChanges(logs[..|logs| - 1], height, view) + LogChanges(logs[|logs| - 1], height, view)
  }

  lemma PairInSteps(s: Store, drops: seq<Change>, c: SlotValue)
    ensures Changed(s, drops + [Rebump(c.owner), Rebump(c.resolved)])
         == Apply(Apply(Changed(s, drops), Rebump(c.owner)), Rebump(c.resolved))
  {
    assert drops + [Rebump(c.owner), Rebump(c.resolved)] == (drops + [Rebump(c.owner)]) + [Rebump(c.resolved)];
    ChangedSnoc(s, drops, Rebump(c.owner));
    ChangedSnoc(s, drops + [Rebump(c.owner)], Rebump(c.resolved));
  }

  lemma DiscoveriesOfTwo(a: Reference, b: Reference, height: u32, view: BlockView)
    ensures Discoveries([], height, view) == []
    ensures Discoveries([a], height, view) == [Discover(a, height, Search(view, a))]
    ensures Discoveries([a, b], height, view)
         == [Discover(a, height, Search(view, a))] + [Discover(b, height, Search(view, b))]
  {
    assert [a][..0] == [];
    assert [a, b][..1] == [a];
  }

  lemma DropsOfTwo(a: Bytes32, b: Bytes32, height: u32)
    ensures Drops([], height) == []
    ensures Drops([a], height) == [Drop(a, height)]
    ensures Drops([a, b], height) == [Drop(a, height)] + [Drop(b, height)]
  {
    assert [a][..0] == [];
    assert [a, b][..1] == [a];
  }

  lemma ChangedByTwo(s: Store, a: Change, b: Change)
    ensures Changed(s, []) == s
    ensures Changed(s, [a]) == Apply(s, a)
    ensures Changed(s, [a] + [b]) == Apply(Apply(s, a), b)
  {
    assert [a][..0] == [];
    ChangedSnoc(s, [a], b);
  }

  class SingletonFollower {
    var store: Store

    constructor ()
      ensures store == map[]
    {
      store := map[];
    }

    method BumpReference(l: Bytes32)
      modifies this
      ensures store == if l in old(store) then old(store)[l := Bumped(old(store)[l])] else old(store)
    {
      if l in store {
        var rec := store[l];
        store := store[l := rec.(count := SatAdd32(rec.count, 1), dereference := None)];
      }
    }

    method DropReference(l: Bytes32, height: u32)
      modifies this
      ensures store == Apply(old(store), Drop(l, height))
    {
      if l in store {
        var rec := store[l];
        rec := rec.(count := SatSub(rec.count, 1));
        if rec.count == 0 {
          rec := rec.(dereference := Some(height));
        }
        store := store[l := rec];
      }
    }

    method DiscoverReference(r: Reference, height: u32, view: BlockView)
      modifies this
      ensures store == Apply(old(store), Discover(r, height, Search(view, r)))
    {
      if r.launcher in store && Following(store[r.launcher]) {
        BumpReference(r.launcher);
        return;
      }
      var status, current: Option<Entry<SingletonState>> := Incomplete, None;
      match Search(view, r) {
        case NotFound =>
        case Several => status := Mismatch;
        case Found(state) => status, current := Active, Some(Entry(height, state));
      }
      var referenceCount: u32 := 1;
      var history: seq<Entry<SingletonState>> := [];
      if r.launcher in store {
        referenceCount := Max(store[r.launcher].count, 1);
        history := store[r.launcher].versions.history;
      }
      store := store[r.launcher :=
        Followed(r.full, r.inner, height, status, Record(current, history), referenceCount, None)];
    }

    method DropAll(gone: seq<Bytes32>, height: u32)
      modifies this
      ensures store == Changed(old(store), Drops(gone, height))
    {
      for i := 0 to |gone|
        invariant store == Changed(old(store), Drops(gone[..i], height))
      {
        assert gone[..i + 1][..i] == gone[..i];
        ChangedSnoc(old(store), Drops(gone[..i], height), Drop(gone[i], height));
        DropReference(gone[i], height);
      }
      assert gone[..|gone|] == gone;
    }

    method BumpIfDropped(l: Bytes32)
      modifies this
      ensures store == Apply(old(store), Rebump(l))
    {
      if l in store && (store[l].count == 0 || store[l].dereference.Some?) {
        BumpReference(l);
      }
    }

    method TrackPair(s: SlotValue, c: SlotValue, height: u32)
      modifies this
      ensures store == Changed(old(store), PairChanges(s, c, height))
    {
      ghost var drops := Drops(Dereferenced(s, c), height);
      PairInSteps(old(store), drops, c);
      DropAll(Dereferenced(s, c), height);
      BumpIfDropped(c.owner);
      BumpIfDropped(c.resolved);
    }

    method TrackSlotReferenceChanges(height: u32, log: ActionLog)
      modifies this
      ensures store == Changed(old(store), TrackChanges(Pairs(log), height))
    {
      var pairs := Pairs(log);
      for i := 0 to |pairs|
        invariant store == Changed(old(store), TrackChanges(pairs[..i], height))
      {
        assert pairs[..i + 1][..i] == pairs[..i];
        ChangedConcat(old(store), TrackChanges(pairs[..i], height), PairChanges(pairs[i].0, pairs[i].1, height));
        TrackPair(pairs[i].0, pairs[i].1, height);
      }
      assert pairs[..|pairs|] == pairs;
    }

    method DiscoverAll(refs: seq<Reference>, height: u32, view: BlockView)
      modifies this
      ensures store == Changed(old(store), Discoveries(refs, height, view))
    {
      for j := 0 to |refs|
        invariant store == Changed(old(store), Discoveries(refs[..j], height, view))
      {
        assert refs[..j + 1][..j] == refs[..j];
        ChangedSnoc(old(store), Discoveries(refs[..j], height, view), Discover(refs[j], height, Search(view, refs[j])));
        DiscoverReference(refs[j], height, view);
      }
      assert refs[..|refs|] == refs;
    }

    method OnLog(height: u32, log: ActionLog, view: BlockView)
      modifies this
      ensures store == Changed(old(store), LogChanges(log, height, view))
    {
      ChangedConcat(old(store), Discoveries(ReferencesOf(log), height, view), TrackChanges(Pairs(log), height));
      DiscoverAll(ReferencesOf(log), height, view);
      TrackSlotReferenceChanges(height, log);
    }

    method OnRegistryTransition(height: u32, logs: seq<ActionLog>, view: BlockView)
      modifies this
      ensures store == Changed(old(store), TransitionChanges(logs, height, view))
    {
      for i := 0 to |logs|
        invariant store == Changed(old(store), TransitionChanges(logs[..i], height, view))
      {
        assert logs[..i + 1][..i] == logs[..i];
        ChangedConcat(old(store), TransitionChanges(logs[..i], height, view), LogChanges(logs[i], height, view));
        OnLog(height, logs[i], view);
      }
      assert logs[..|logs|] == logs;
    }

    method OnBlock(height: u32, view: BlockView)
      modifies this
      ensures store == Apply(Apply(old(store), Block(height, view)), Cleanup(height))
    {
      var ids := store.Keys;
      while ids != {}
        invariant ids <= old(store).Keys == store.Keys
        invariant forall l :: l in ids ==> store[l] == old(store)[l]
        invariant forall l :: l in store.Keys - ids ==> store[l] == AfterBlock(l, old(store)[l], height, view)
      {
        var l :| l in ids;
        ids := ids - {l};
        var record := store[l];
        if record.status == Incomplete {
          match Search(view, Reference(l, record.full, record.inner)) {
            case Found(state) =>
              record := record.(status := Active, versions := record.versions.(current := Some(Entry(height, state))));
              store := store[l := record];
            case Several =>
              store := store[l := record.(status := Mismatch)];
            case NotFound =>
          }
          continue;
        }
        if record.status != Active || record.versions.current.None? {
          continue;
        }
        var current := record.versions.current.value.state;
        if current.melted || current.coin !in view.next {
          continue;
        }
        var versions := new VersionedRecord<SingletonState>(record.versions);
        versions.PushReplacement(Entry(height, view.next[current.coin]), height);
        store := store[l := record.(versions := versions.Value())];
      }
      assert store == Apply(old(store), Block(height, view));
      CleanupFinalized(height);
    }

    method CleanupFinalized(peak: u32)
      modifies this
      ensures store == Apply(old(store), Cleanup(peak))
    {
      var ids := store.Keys;
      while ids != {}
        invariant ids <= store.Keys <= old(store).Keys
        invariant forall l :: l in store ==> store[l] == old(store)[l]
        invariant forall l :: l in old(store).Keys - ids ==> (l in store <==> !Final(old(store)[l], peak))
      {
        var l :| l in ids;
        ids := ids - {l};
        var rec := store[l];
        if rec.count == 0 && rec.dereference.Some? && peak >= SatAdd32(rec.dereference.value, 32) {
          store := store - {l};
        }
      }
    }

    method RollbackAll(from: u32)
      modifies this
      ensures store == Apply(old(store), Change.Rollback(from))
    {
      var ids := store.Keys;
      while ids != {}
        invariant ids <= store.Keys <= old(store).Keys
        invariant forall l :: l in ids ==> store[l] == old(store)[l]
        invariant forall l :: l in old(store).Keys - ids ==> (l in store <==> old(store)[l].discovery < from)
        invariant forall l :: l in store.Keys - ids ==> store[l] == Restored(old(store)[l], from)
      {
        var l :| l in ids;
        ids := ids - {l};
        var rec := store[l];
        if rec.discovery >= from {
          store := store - {l};
          continue;
        }
        var versions := new VersionedRecord<SingletonState>(rec.versions);
        versions.RollbackToBefore(from);
        rec := rec.(versions := versions.Value());
        if rec.dereference.Some? && rec.dereference.value >= from {
          rec := rec.(dereference := None);
          if rec.count == 0 {
            rec := rec.(count := 1);
          }
        }
        store := store[l := rec];
      }
    }
  }

  // ---------------------------------------------------------------------------------
  // Zero counts and the dereference height
  // ---------------------------------------------------------------------------------

  /** A count is zero exactly when the height of its last drop is recorded. */
  ghost predicate Consistent(s: Store) {
    forall l :: l in s ==> (s[l].count == 0 <==> s[l].dereference.Some?)
  }

  lemma ChangeKeepsConsistent(s: Store, c: Change)
    requires Consistent(s)
    ensures Consistent(Apply(s, c))
  {
  }

  /** Over every sequence of changes, rollbacks included. */
  lemma {:induction false} ZeroCountIffDereferenced(s: Store, cs: seq<Change>)
    requires Consistent(s)
    ensures Consistent(Changed(s, cs))
  {
    if cs != [] {
      ZeroCountIffDereferenced(s, cs[..|cs| - 1]);
      ChangeKeepsConsistent(Changed(s, cs[..|cs| - 1]), cs[|cs| - 1]);
    }
  }

  /** From change `i`, a drop at `d`, until now the launcher stayed stored, unreferenced and dereferenced at `d`. */
  ghost predicate DroppedSince(cs: seq<Change>, i: nat, l: Bytes32, d: u32) {
    && i < |cs| && cs[i] == Drop(l, d)
    && forall j :: i < j <= |cs| ==>
         var s := Changed(map[], cs[..j]);
         l in s && s[l].count == 0 && s[l].dereference == Some(d)
  }

  lemma DroppedSinceSnoc(cs: seq<Change>, c: Change, i: nat, l: Bytes32, d: u32)
    requires DroppedSince(cs, i, l, d)
    requires var s := Changed(map[], cs + [c]); l in s && s[l].count == 0 && s[l].dereference == Some(d)
    ensures DroppedSince(cs + [c], i, l, d)
  {
    forall j | i < j <= |cs + [c]|
      ensures var s := Changed(map[], (cs + [c])[..j]); l in s && s[l].count == 0 && s[l].dereference == Some(d)
    {
      if j <= |cs| {
        assert (cs + [c])[..j] == cs[..j];
      } else {
        assert (cs + [c])[..j] == cs + [c];
      }
    }
  }

  lemma {:induction false} DereferenceHasDrop(cs: seq<Change>, l: Bytes32)
    requires l in Changed(map[], cs) && Changed(map[], cs)[l].dereference.Some?
    ensures exists i :: 0 <= i && DroppedSince(cs, i, l, Changed(map[], cs)[l].dereference.value)
  {
    var front, c := cs[..|cs| - 1], cs[|cs| - 1];
    assert cs == front + [c];
    ZeroCountIffDereferenced(map[], cs);
    var s, d := Changed(map[], front), Changed(map[], cs)[l].dereference.value;
    if c == Drop(l, d) {
      assert cs[..|cs|] == cs;
      assert DroppedSince(cs, |front|, l, d);
    } else {
      assert l in s && s[l].dereference == Some(d);
      DereferenceHasDrop(front, l);
      var i :| 0 <= i && DroppedSince(front, i, l, d);
      DroppedSinceSnoc(front, c, i, l, d);
    }
  }

  /**
   Cleanup removes only a record whose latest drop left its count at zero at least 32 blocks before
   the peak, and which has stayed unreferenced ever since.
   */
  lemma CleanupNeedsOldDrop(cs: seq<Change>, peak: u32, l: Bytes32)
    requires l in Changed(map[], cs) && l !in Apply(Changed(map[], cs), Cleanup(peak))
    ensures exists i, d :: 0 <= i && DroppedSince(cs, i, l, d) && peak >= SatAdd32(d, 32)
  {
    DereferenceHasDrop(cs, l);
  }
}
