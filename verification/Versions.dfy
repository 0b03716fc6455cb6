/**
 Versioned records of the listener: a `current` state and a pruned `history`.

 The program writes the same three functions (prune, push a replacement, roll back)
 for followed singletons, Handle slots and registrations. They are modelled once
 over an arbitrary state type; `Record` is the stored value and `VersionedRecord`
 the mutable record the program edits before it writes the value back.
 */
module Versions {
  import opened Common

  /** Depth, in blocks, for which replaced states are retained. */
  const RETENTION: nat := 32

  datatype Entry<+T> = Entry(height: u32, state: T)

  datatype Record<+T> = Record(current: Option<Entry<T>>, history: seq<Entry<T>>)

  // ---------------------------------------------------------------------------------
  // Logs of entries
  // ---------------------------------------------------------------------------------

  ghost predicate Sorted<T>(s: seq<Entry<T>>) {
    forall i, j :: 0 <= i < j < |s| ==> s[i].height <= s[j].height
  }

  /** The entries below a height, in order: what a reorganization at `h` leaves of a log. */
  function Below<T>(s: seq<Entry<T>>, h: nat): seq<Entry<T>> {
    if s == [] then []
    else
      var rest := Below(s[..|s| - 1], h);
      if s[|s| - 1].height < h then rest + [s[|s| - 1]] else rest
  }

  function AtLeast<T>(s: seq<Entry<T>>, h: nat): seq<Entry<T>> {
    if s == [] then []
    else
      var rest := AtLeast(s[..|s| - 1], h);
      if s[|s| - 1].height >= h then rest + [s[|s| - 1]] else rest
  }

  function Latest<T>(s: seq<Entry<T>>, h: nat): Option<Entry<T>> {
    LastOf(Below(s, h))
  }

  lemma {:induction false} BelowSnoc<T>(s: seq<Entry<T>>, x: Entry<T>, h: nat)
    ensures Below(s + [x], h) == if x.height < h then Below(s, h) + [x] else Below(s, h)
  {
    assert (s + [x])[..|s|] == s;
  }

  lemma {:induction false} AtLeastSnoc<T>(s: seq<Entry<T>>, x: Entry<T>, h: nat)
    ensures AtLeast(s + [x], h) == if x.height >= h then AtLeast(s, h) + [x] else AtLeast(s, h)
  {
    assert (s + [x])[..|s|] == s;
  }

  lemma {:induction false} NoneAtLeast<T>(s: seq<Entry<T>>, h: nat)
    requires forall e :: e in s ==> e.height < h
    ensures AtLeast(s, h) == []
  {
    if s != [] {
      NoneAtLeast(s[..|s| - 1], h);
    }
  }

  /** A sorted log splits at any height into the part below it and the part at or above it. */
  lemma {:induction false} SplitAt<T>(s: seq<Entry<T>>, h: nat)
    requires Sorted(s)
    ensures s == Below(s, h) + AtLeast(s, h)
    ensures forall e :: e in Below(s, h) ==> e.height < h
    ensures forall e :: e in AtLeast(s, h) ==> e.height >= h
  {
    if s != [] {
      var front, x := s[..|s| - 1], s[|s| - 1];
      SplitAt(front, h);
      assert s == front + [x];
      if x.height < h {
        assert forall e :: e in front ==> e.height < h;
        NoneAtLeast(front, h);
      }
    }
  }

  /** Truncating a sorted log twice is truncating it once at the lower height. */
  lemma {:induction false} BelowBelow<T>(s: seq<Entry<T>>, g: nat, h: nat)
    ensures Below(Below(s, g), h) == Below(s, if g < h then g else h)
  {
    if s != [] {
      var front, x := s[..|s| - 1], s[|s| - 1];
      BelowBelow(front, g, h);
      if x.height < g {
        BelowSnoc(Below(front, g), x, h);
      }
    }
  }

  lemma {:induction false} BelowAll<T>(s: seq<Entry<T>>, h: nat)
    requires forall e :: e in s ==> e.height < h
    ensures Below(s, h) == s
  {
    if s != [] {
      BelowAll(s[..|s| - 1], h);
    }
  }

  lemma {:induction false} BelowConcat<T>(a: seq<Entry<T>>, b: seq<Entry<T>>, from: nat)
    ensures Below(a + b, from) == Below(a, from) + Below(b, from)
    decreases |b|
  {
    if b == [] {
      assert a + b == a;
    } else {
      assert (a + b)[..|a + b| - 1] == a + b[..|b| - 1];
      BelowConcat(a, b[..|b| - 1], from);
    }
  }

  lemma BelowSorted<T>(s: seq<Entry<T>>, h: nat)
    requires Sorted(s)
    ensures Sorted(Below(s, h))
  {
    SplitAt(s, h);
  }

  // ---------------------------------------------------------------------------------
  // Pruning
  // ---------------------------------------------------------------------------------

  function OptSeq<T>(o: Option<T>): seq<T> {
    match o
    case None => []
    case Some(x) => [x]
  }

  /** What pruning at `peak` keeps: the last entry older than the cutoff, then everything recent. */
  function Pruned<T>(s: seq<Entry<T>>, peak: u32): seq<Entry<T>> {
    var cutoff := SatSub(peak, RETENTION);
    OptSeq(Latest(s, cutoff)) + AtLeast(s, cutoff)
  }

  lemma PrunedSnoc<T>(s: seq<Entry<T>>, x: Entry<T>, peak: u32)
    ensures x.height >= SatSub(peak, RETENTION) ==> Pruned(s + [x], peak) == Pruned(s, peak) + [x]
    ensures x.height < SatSub(peak, RETENTION) && AtLeast(s, SatSub(peak, RETENTION)) == [] ==>
              Pruned(s + [x], peak) == [x]
  {
    BelowSnoc(s, x, SatSub(peak, RETENTION));
    AtLeastSnoc(s, x, SatSub(peak, RETENTION));
  }

  /** Pruning loses no answer at or above its cutoff. */
  lemma {:induction false} PruneKeepsAnswers<T>(s: seq<Entry<T>>, peak: u32, h: nat)
    requires Sorted(s)
    requires SatSub(peak, RETENTION) <= h
    ensures Latest(Pruned(s, peak), h) == Latest(s, h)
  {
    if s != [] {
      var front, x := s[..|s| - 1], s[|s| - 1];
      assert s == front + [x];
      PrunedSnoc(front, x, peak);
      BelowSnoc(front, x, h);
      if x.height < SatSub(peak, RETENTION) {
        PrunedToLast(front, x, peak, h);
      } else {
        PruneKeepsAnswers(front, peak, h);
        BelowSnoc(Pruned(front, peak), x, h);
      }
    }
  }

  lemma PrunedToLast<T>(s: seq<Entry<T>>, x: Entry<T>, peak: u32, h: nat)
    requires Sorted(s + [x])
    requires x.height < SatSub(peak, RETENTION) <= h
    ensures Latest(Pruned(s + [x], peak), h) == Some(x)
  {
    forall e | e in s ensures e.height < SatSub(peak, RETENTION) {
      var i :| 0 <= i < |s| && s[i] == e;
      assert (s + [x])[i] == e && (s + [x])[|s|] == x;
    }
    NoneAtLeast(s, SatSub(peak, RETENTION));
    PrunedSnoc(s, x, peak);
    BelowSnoc([], x, h);
    assert [] + [x] == [x];
  }

  /** Pruning a sorted sequence drops a prefix of it. */
  lemma PruneIsSuffix<T>(s: seq<Entry<T>>, peak: u32)
    requires Sorted(s)
    ensures SatSub(|Below(s, SatSub(peak, 32))|, 1) <= |s|
    ensures Pruned(s, peak) == s[SatSub(|Below(s, SatSub(peak, 32))|, 1)..]
  {
    var cutoff := SatSub(peak, 32);
    SplitAt(s, cutoff);
    var older := Below(s, cutoff);
    if older != [] {
      assert older[|older| - 1] == s[|older| - 1];
    }
  }

  lemma PruneShape<T>(s: seq<Entry<T>>, peak: u32)
    requires Sorted(s)
    ensures Sorted(Pruned(s, peak))
    ensures |Below(Pruned(s, peak), SatSub(peak, RETENTION))| <= 1
    ensures forall e :: e in Pruned(s, peak) ==> e in s
    ensures LastOf(Pruned(s, peak)) == LastOf(s)
  {
    var cutoff := SatSub(peak, RETENTION);
    PruneIsSuffix(s, peak);
    SplitAt(s, cutoff);
    BelowNone(OptSeq(Latest(s, cutoff)), AtLeast(s, cutoff), cutoff);
  }

  lemma {:induction false} BelowNone<T>(a: seq<Entry<T>>, b: seq<Entry<T>>, h: nat)
    requires forall e :: e in b ==> e.height >= h
    ensures Below(a + b, h) == Below(a, h)
    ensures |Below(a, h)| <= |a|
    decreases |a| + |b|
  {
    if b == [] {
      assert a + b == a;
      if a != [] { BelowNone(a[..|a| - 1], b, h); }
    } else {
      var x := b[|b| - 1];
      assert a + b == (a + b[..|b| - 1]) + [x];
      BelowSnoc(a + b[..|b| - 1], x, h);
      BelowNone(a, b[..|b| - 1], h);
    }
  }

  // ---------------------------------------------------------------------------------
  // The two edits of a record
  // ---------------------------------------------------------------------------------

  function Pushed<T>(r: Record<T>, e: Entry<T>, peak: u32): Record<T> {
    Record(Some(e), Pruned(r.history + OptSeq(r.current), peak))
  }

  function RolledBack<T>(r: Record<T>, from: nat): Record<T> {
    var kept := Below(r.history, from);
    if r.current.Some? && r.current.value.height < from then Record(r.current, kept)
    else Record(LastOf(kept), kept)
  }

  /** The mutable record; a caller loads a stored value, edits it and stores `Value()` again. */
  class VersionedRecord<T> {
    var current: Option<Entry<T>>
    var history: seq<Entry<T>>

    function Value(): Record<T>
      reads this
    {
      Record(current, history)
    }

    constructor (r: Record<T>)
      ensures Value() == r
    {
      current, history := r.current, r.history;
    }

    method PruneHistory(peak: u32)
      modifies this`history
      ensures history == Pruned(old(history), peak)
    {
      if history == [] {
        return;
      }
      var cutoff := SatSub(peak, RETENTION);
      var drained := history;
      var keepRecent: seq<Entry<T>> := [];
      var older: Option<Entry<T>> := None;
      for i := 0 to |drained|
        invariant keepRecent == AtLeast(drained[..i], cutoff)
        invariant older == Latest(drained[..i], cutoff)
      {
        var state := drained[i];
        assert drained[..i + 1] == drained[..i] + [state];
        BelowSnoc(drained[..i], state, cutoff);
        AtLeastSnoc(drained[..i], state, cutoff);
        if state.height >= cutoff {
          keepRecent := keepRecent + [state];
        } else {
          older := Some(state);
        }
      }
      assert drained[..|drained|] == drained;
      history := [];
      if older.Some? {
        history := history + [older.value];
      }
      history := history + keepRecent;
    }

    method PushReplacement(newState: Entry<T>, peak: u32)
      modifies this
      ensures Value() == Pushed(old(Value()), newState, peak)
    {
      if current.Some? {
        history := history + [current.value];
      } else {
        assert history + OptSeq(current) == history;
      }
      current := Some(newState);
      PruneHistory(peak);
    }

    method RollbackToBefore(from: u32)
      modifies this
      ensures Value() == RolledBack(old(Value()), from)
    {
      if current.Some? && current.value.height >= from {
        current := None;
      }
      var drained := history;
      var restored: Option<Entry<T>> := None;
      var kept: seq<Entry<T>> := [];
      ghost var surviving := current;
      for i := 0 to |drained|
        invariant current == surviving
        invariant kept == Below(drained[..i], from)
        invariant restored == LastOf(kept)
      {
        assert drained[..i + 1] == drained[..i] + [drained[i]];
        BelowSnoc(drained[..i], drained[i], from);
        if drained[i].height < from {
          restored := Some(drained[i]);
          kept := kept + [drained[i]];
        }
      }
      assert drained[..|drained|] == drained;
      history := kept;
      if current.None? {
        current := restored;
      }
    }
  }

  // ---------------------------------------------------------------------------------
  // Refinement of the unpruned log
  // ---------------------------------------------------------------------------------

  function Held<T>(r: Record<T>): seq<Entry<T>> {
    r.history + OptSeq(r.current)
  }

  /** Both sequences give the same answer to every rollback at most RETENTION below `hw`. */
  ghost predicate Agree<T>(held: seq<Entry<T>>, log: seq<Entry<T>>, hw: nat) {
    forall h: nat {:trigger Latest(log, h)} ::
      SatSub(hw, RETENTION) <= h ==> Latest(held, h) == Latest(log, h)
  }

  lemma PushAgrees<T>(held: seq<Entry<T>>, log: seq<Entry<T>>, hw: nat, e: Entry<T>, peak: u32)
    requires Sorted(held) && Agree(held, log, hw)
    ensures Agree(Pruned(held, peak) + [e], log + [e], Max(hw, peak))
  {
    forall h: nat | SatSub(Max(hw, peak), RETENTION) <= h
      ensures Latest(Pruned(held, peak) + [e], h) == Latest(log + [e], h)
    {
      BelowSnoc(Pruned(held, peak), e, h);
      BelowSnoc(log, e, h);
      PruneKeepsAnswers(held, peak, h);
      assert Latest(held, h) == Latest(log, h);
    }
  }

  lemma PruneAgrees<T>(held: seq<Entry<T>>, log: seq<Entry<T>>, hw: nat, peak: u32)
    requires Sorted(held) && Agree(held, log, hw)
    ensures Agree(Pruned(held, peak), log, Max(hw, peak))
  {
    forall h: nat | SatSub(Max(hw, peak), RETENTION) <= h
      ensures Latest(Pruned(held, peak), h) == Latest(log, h)
    {
      PruneKeepsAnswers(held, peak, h);
      assert Latest(held, h) == Latest(log, h);
    }
  }

  /**
   `r` stands for the unpruned `log` when nothing above the high-water mark `hw` was ever
   pushed: both give the same answer to every rollback that is at most RETENTION deep.
   After a rollback the restored state sits in `history` and in `current`; `Held` is
   therefore only sorted, not strictly.
   */
  ghost predicate Refines<T>(r: Record<T>, log: seq<Entry<T>>, hw: nat) {
    && Sorted(Held(r))
    && Sorted(log)
    && (r.current.None? ==> r.history == [])
    && r.current == LastOf(log)
    && Agree(Held(r), log, hw)
  }

  lemma EmptyRefines<T>(hw: nat)
    ensures Refines<T>(Record(None, []), [], hw)
  {
  }

  lemma SortedSnoc<T>(s: seq<Entry<T>>, e: Entry<T>)
    requires Sorted(s) && (s != [] ==> s[|s| - 1].height <= e.height)
    ensures Sorted(s + [e])
  {
  }

  lemma PushHeld<T>(held: seq<Entry<T>>, e: Entry<T>, peak: u32)
    requires Sorted(held)
    requires held != [] ==> held[|held| - 1].height <= e.height
    ensures Sorted(Pruned(held, peak) + [e])
    ensures |Below(Pruned(held, peak), SatSub(peak, RETENTION))| <= 1
  {
    PruneShape(held, peak);
    assert forall x :: x in held ==> x.height <= e.height;
  }

  lemma PushRefines<T>(r: Record<T>, log: seq<Entry<T>>, hw: nat, e: Entry<T>, peak: u32)
    requires Refines(r, log, hw)
    requires log != [] ==> LastOf(log).value.height <= e.height
    ensures Refines(Pushed(r, e, peak), log + [e], Max(hw, peak))
    ensures |Below(Pushed(r, e, peak).history, SatSub(peak, RETENTION))| <= 1
  {
    PushHeld(Held(r), e, peak);
    PushAgrees(Held(r), log, hw, e, peak);
  }

  lemma RepeatLast<T>(s: seq<Entry<T>>, h: nat)
    requires s != []
    ensures Latest(s + [s[|s| - 1]], h) == Latest(s, h)
  {
    var x := s[|s| - 1];
    BelowSnoc(s, x, h);
    assert s == s[..|s| - 1] + [x];
    BelowSnoc(s[..|s| - 1], x, h);
  }

  lemma RollbackHeld<T>(r: Record<T>, from: nat, h: nat)
    requires Sorted(Held(r))
    ensures Latest(Held(RolledBack(r, from)), h) == Latest(Below(Held(r), from), h)
    ensures RolledBack(r, from).current == Latest(Held(r), from)
    ensures Sorted(Held(RolledBack(r, from)))
  {
    var kept := Below(r.history, from);
    BelowSorted(Held(r), from);
    if r.current.Some? {
      BelowSnoc(r.history, r.current.value, from);
    } else {
      assert Held(r) == r.history;
    }
    if r.current.None? || r.current.value.height >= from {
      assert Below(Held(r), from) == kept;
      RestoreHeld(r, from, h);
    }
  }

  /** The restored state is held twice, which changes no answer. */
  lemma RestoreHeld<T>(r: Record<T>, from: nat, h: nat)
    requires Sorted(Below(r.history, from))
    requires r.current.None? || r.current.value.height >= from
    ensures Latest(Held(RolledBack(r, from)), h) == Latest(Below(r.history, from), h)
    ensures Sorted(Held(RolledBack(r, from)))
  {
    var kept := Below(r.history, from);
    if kept == [] {
      assert Held(RolledBack(r, from)) == kept;
    } else {
      RepeatLast(kept, h);
    }
  }

  lemma RollbackAgrees<T>(r: Record<T>, log: seq<Entry<T>>, hw: nat, from: nat)
    requires Sorted(Held(r)) && Agree(Held(r), log, hw)
    requires SatSub(hw, RETENTION) <= from
    ensures RolledBack(r, from).current == Latest(log, from)
    ensures Agree(Held(RolledBack(r, from)), Below(log, from), hw)
  {
    RollbackHeld(r, from, from);
    assert Latest(Held(r), from) == Latest(log, from);
    forall h: nat | SatSub(hw, RETENTION) <= h
      ensures Latest(Held(RolledBack(r, from)), h) == Latest(Below(log, from), h)
    {
      RollbackHeld(r, from, h);
      BelowBelow(Held(r), from, h);
      BelowBelow(log, from, h);
      var m := if from < h then from else h;
      assert Latest(Held(r), m) == Latest(log, m);
    }
  }

  lemma RollbackRefines<T>(r: Record<T>, log: seq<Entry<T>>, hw: nat, from: nat)
    requires Refines(r, log, hw)
    requires SatSub(hw, RETENTION) <= from
    ensures Refines(RolledBack(r, from), Below(log, from), hw)
  {
    RollbackHeld(r, from, from);
    RollbackAgrees(r, log, hw, from);
    BelowSorted(log, from);
  }

  // ---------------------------------------------------------------------------------
  // Runs
  // ---------------------------------------------------------------------------------

  datatype Op<T> = Push(e: Entry<T>, peak: u32) | Rollback(from: u32)

  /** The program's record beside the ideal one: the unpruned log, and the high-water mark. */
  datatype Run<T> = Run(rec: Record<T>, log: seq<Entry<T>>, hw: nat)

  function Step<T>(s: Run<T>, op: Op<T>): Run<T> {
    match op
    case Push(e, peak) => Run(Pushed(s.rec, e, peak), s.log + [e], Max(s.hw, peak))
    case Rollback(from) => Run(RolledBack(s.rec, from), Below(s.log, from), s.hw)
  }

  /** Pushes come in height order; no rollback goes deeper than the retention under the high-water mark. */
  ghost predicate Allowed<T>(s: Run<T>, op: Op<T>) {
    match op
    case Push(e, _) => s.log != [] ==> LastOf(s.log).value.height <= e.height
    case Rollback(from) => SatSub(s.hw, RETENTION) <= from
  }

  function Exec<T>(ops: seq<Op<T>>): Run<T> {
    if ops == [] then Run(Record(None, []), [], 0)
    else Step(Exec(ops[..|ops| - 1]), ops[|ops| - 1])
  }

  ghost predicate AllowedRun<T>(ops: seq<Op<T>>) {
    forall i :: 0 <= i < |ops| ==> Allowed(Exec(ops[..i]), ops[i])
  }

  /**
   Over every interleaving of ordered pushes and in-retention rollbacks, the pruned record's
   current state is the last surviving entry of the unpruned log.
   */
  lemma {:induction false} PrunedRecordAgreesWithLog<T>(ops: seq<Op<T>>)
    requires AllowedRun(ops)
    ensures Exec(ops).rec.current == LastOf(Exec(ops).log)
    ensures Sorted(Exec(ops).rec.history)
    ensures Refines(Exec(ops).rec, Exec(ops).log, Exec(ops).hw)
  {
    if ops != [] {
      var front, op := ops[..|ops| - 1], ops[|ops| - 1];
      forall i | 0 <= i < |front| ensures Allowed(Exec(front[..i]), front[i]) {
        assert front[..i] == ops[..i];
      }
      PrunedRecordAgreesWithLog(front);
      var s := Exec(front);
      match op {
        case Push(e, peak) => PushRefines(s.rec, s.log, s.hw, e, peak);
        case Rollback(from) => RollbackRefines(s.rec, s.log, s.hw, from);
      }
      assert Held(Exec(ops).rec)[..|Exec(ops).rec.history|] == Exec(ops).rec.history;
    }
  }

  lemma PruneOne<T>(e: Entry<T>, peak: u32)
    ensures Pruned([e], peak) == [e]
  {
    var cutoff := SatSub(peak, RETENTION);
    BelowSnoc([], e, cutoff);
    AtLeastSnoc([], e, cutoff);
    assert [] + [e] == [e];
  }

  /**
   The bound is the best possible. At every height three ordered pushes can make the record
   forget its first entry, so that a rollback one block deeper than the retention finds nothing
   where the log still has that entry.
   */
  lemma RetentionBoundIsSharp<T>(x: T, y: T, z: T, peak: u32)
    requires peak > 33
    ensures
      var from := peak - 33;
      var a, b, c := Entry(0, x), Entry(from, y), Entry(peak, z);
      var r := Pushed(Pushed(Pushed(Record(None, []), a, 0), b, from), c, peak);
      RolledBack(r, from).current == None && Latest([a] + [b] + [c], from) == Some(a)
  {
    var from := peak - 33;
    var a, b, c := Entry(0, x), Entry(from, y), Entry(peak, z);
    var r1, r2 := Record(Some(a), []), Record(Some(b), [a]);
    PushOnto(Record(None, []), a, 0);
    PushOnto(r1, b, from);
    PruneOne(a, from);
    PushOnto(r2, c, peak);
    NoneAtLeast([a], peak - RETENTION);
    PrunedSnoc([a], b, peak);
    assert Pushed(r2, c, peak) == Record(Some(c), [b]);
    SharpLog(a, b, c, from);
  }

  lemma PushOnto<T>(r: Record<T>, e: Entry<T>, peak: u32)
    ensures r.current.None? && r.history == [] ==> Pushed(r, e, peak) == Record(Some(e), [])
    ensures r.current.Some? && r.history == [] ==>
      Pushed(r, e, peak) == Record(Some(e), Pruned([r.current.value], peak))
    ensures r.current.Some? ==> Pushed(r, e, peak) == Record(Some(e), Pruned(r.history + [r.current.value], peak))
  {
    assert r.current.None? && r.history == [] ==> r.history + OptSeq(r.current) == [];
    assert r.current.Some? && r.history == [] ==> r.history + OptSeq(r.current) == [r.current.value];
  }

  lemma SharpLog<T>(a: Entry<T>, b: Entry<T>, c: Entry<T>, h: nat)
    requires a.height < h <= b.height && h <= c.height
    ensures Latest([a] + [b] + [c], h) == Some(a)
    ensures Below([b], h) == []
  {
    BelowSnoc([], a, h);
    BelowSnoc([a], b, h);
    BelowSnoc([a] + [b], c, h);
    BelowSnoc([], b, h);
    assert [] + [a] == [a] && [] + [b] == [b];
  }
}
