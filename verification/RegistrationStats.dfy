/**
 Per-registry registration statistics: a cumulative register count beside a feed of the most
 recent events, capped at fifty, from which a reorganization takes its corrections.
 */
module RegistrationStats {
  import opened Common
  import opened Versions

  const RECENT_EVENTS_MAX: nat := 50

  datatype ActionKind = Register | Expire

  datatype EventFact = EventFact(handle: string, kind: ActionKind)

  type Event = Entry<EventFact>

  datatype Stats = Stats(total: u64, events: seq<Event>)

  function Registers(s: seq<Event>): nat {
    if s == [] then 0
    else Registers(s[..|s| - 1]) + (if s[|s| - 1].state.kind.Register? then 1 else 0)
  }

  lemma {:induction false} RegistersConcat(a: seq<Event>, b: seq<Event>)
    ensures Registers(a + b) == Registers(a) + Registers(b)
    decreases |b|
  {
    if b == [] {
      assert a + b == a;
    } else {
      assert (a + b)[..|a + b| - 1] == a + b[..|b| - 1];
      RegistersConcat(a, b[..|b| - 1]);
    }
  }

  /** Number of oldest events the cap evicts when `n` are held. */
  function Overflow(n: nat): nat {
    if n > RECENT_EVENTS_MAX then 1 else 0
  }

  function Recorded(s: Stats, ev: Event): Stats {
    var all := s.events + [ev];
    Stats(if ev.state.kind.Register? && s.total < MAX_U64 then s.total + 1 else s.total, all[Overflow(|all|)..])
  }

  /** What popping from the newest end leaves. */
  function PopFrom(events: seq<Event>, from: nat): (kept: seq<Event>)
    ensures Registers(kept) <= Registers(events)
  {
    if events == [] || events[|events| - 1].height < from then events
    else PopFrom(events[..|events| - 1], from)
  }

  function StatsRolledBack(s: Stats, from: nat): Stats {
    var kept := PopFrom(s.events, from);
    Stats(SatSub(s.total, Registers(s.events) - Registers(kept)), kept)
  }

  class RegistryStats {
    var totalRegistered: u64
    var events: seq<Event>

    function Value(): Stats
      reads this
    {
      Stats(totalRegistered, events)
    }

    constructor (s: Stats)
      ensures Value() == s
    {
      totalRegistered, events := s.total, s.events;
    }

    method PushEvent(ev: Event)
      modifies this`events
      ensures events == (old(events) + [ev])[Overflow(|old(events)| + 1)..]
    {
      events := events + [ev];
      if |events| > RECENT_EVENTS_MAX {
        events := events[1..];
      }
    }

    /** A projected register or expire action: the event enters the feed, a register is counted. */
    method Record(ev: Event)
      modifies this
      ensures Value() == Recorded(old(Value()), ev)
    {
      PushEvent(ev);
      if ev.state.kind == Register {
        totalRegistered := if totalRegistered < MAX_U64 then totalRegistered + 1 else totalRegistered;
      }
    }

    method RollbackToBefore(from: u32)
      modifies this
      ensures Value() == StatsRolledBack(old(Value()), from)
    {
      ghost var s := Value();
      while events != [] && events[|events| - 1].height >= from
        invariant PopFrom(events, from) == PopFrom(s.events, from)
        invariant Registers(events) <= Registers(s.events)
        invariant totalRegistered == SatSub(s.total, Registers(s.events) - Registers(events))
      {
        var ev := events[|events| - 1];
        events := events[..|events| - 1];
        if ev.state.kind == Register {
          totalRegistered := SatSub(totalRegistered, 1);
        }
      }
    }
  }

  // ---------------------------------------------------------------------------------
  // Conservation over runs
  // ---------------------------------------------------------------------------------

  datatype StatsOp = Note(ev: Event) | Undo(from: u32)

  /**
   The statistics beside what they forget: the events evicted by the cap that the chain still has,
   the register events evicted by the cap and orphaned afterwards, and the full surviving log.
   */
  datatype Tally = Tally(stats: Stats, evicted: seq<Event>, lost: nat, log: seq<Event>)

  function Step(s: Tally, op: StatsOp): Tally {
    match op
    case Note(ev) =>
      var all := s.stats.events + [ev];
      Tally(Recorded(s.stats, ev), s.evicted + all[..Overflow(|all|)], s.lost, s.log + [ev])
    case Undo(from) =>
      Tally(StatsRolledBack(s.stats, from), Below(s.evicted, from),
          s.lost + RegistersAtLeast(s.evicted, from), Below(s.log, from))
  }

  function RegistersAtLeast(s: seq<Event>, from: nat): nat {
    Registers(AtLeast(s, from))
  }

  function Exec(ops: seq<StatsOp>): Tally {
    if ops == [] then Tally(Stats(0, []), [], 0, [])
    else Step(Exec(ops[..|ops| - 1]), ops[|ops| - 1])
  }

  /** Recorded events come in height order, and the 64-bit counter never fills up. */
  ghost predicate Allowed(s: Tally, op: StatsOp) {
    op.Note? ==>
      && (s.log != [] ==> LastOf(s.log).value.height <= op.ev.height)
      && s.stats.total < MAX_U64
  }

  ghost predicate AllowedRun(ops: seq<StatsOp>) {
    forall i :: 0 <= i < |ops| ==> Allowed(Exec(ops[..i]), ops[i])
  }

  ghost predicate Conserved(s: Tally) {
    && Sorted(s.log)
    && s.log == s.evicted + s.stats.events
    && s.stats.total == Registers(s.log) + s.lost
    && |s.stats.events| <= RECENT_EVENTS_MAX
  }

  lemma {:induction false} PopIsBelow(events: seq<Event>, from: nat)
    requires Sorted(events)
    ensures PopFrom(events, from) == Below(events, from)
  {
    if events != [] {
      if events[|events| - 1].height < from {
        assert forall e :: e in events ==> e.height < from;
        BelowAll(events, from);
      } else {
        PopIsBelow(events[..|events| - 1], from);
      }
    }
  }

  lemma SplitRegisters(s: seq<Event>, from: nat)
    requires Sorted(s)
    ensures Registers(s) == Registers(Below(s, from)) + RegistersAtLeast(s, from)
  {
    SplitAt(s, from);
    RegistersConcat(Below(s, from), AtLeast(s, from));
  }

  /** Rolling back subtracts exactly the registers it pops: the saturating subtraction never saturates. */
  lemma RollbackNeverSaturates(s: Tally, from: u32)
    requires Conserved(s)
    ensures Registers(s.stats.events) - Registers(PopFrom(s.stats.events, from)) <= s.stats.total
    ensures Conserved(Step(s, Undo(from)))
  {
    var events, evicted := s.stats.events, s.evicted;
    assert Sorted(events) by {
      assert forall i :: 0 <= i < |events| ==> events[i] == s.log[|evicted| + i];
    }
    assert Sorted(evicted) by {
      assert forall i :: 0 <= i < |evicted| ==> evicted[i] == s.log[i];
    }
    PopIsBelow(events, from);
    BelowConcat(evicted, events, from);
    BelowSorted(s.log, from);
    SplitRegisters(events, from);
    SplitRegisters(evicted, from);
    RegistersConcat(evicted, events);
    RegistersConcat(Below(evicted, from), Below(events, from));
    BelowNone(events, [], from);
  }

  lemma RecordConserves(s: Tally, ev: Event)
    requires Conserved(s) && Allowed(s, Note(ev))
    ensures Conserved(Step(s, Note(ev)))
  {
    var all := s.stats.events + [ev];
    var k := Overflow(|all|);
    var t := Step(s, Note(ev));
    assert Sorted(t.log);
    assert t.log == t.evicted + t.stats.events by {
      assert all == all[..k] + all[k..];
    }
    assert t.stats.total == Registers(t.log) + t.lost by {
      RegistersConcat(s.log, [ev]);
      RegistersOne(ev);
    }
  }

  lemma RegistersOne(ev: Event)
    ensures Registers([ev]) == if ev.state.kind.Register? then 1 else 0
  {
    assert [ev][..0] == [];
  }

  /**
   Over every run of height-ordered events and rollbacks: what the count adds to the registers in
   the feed is exactly what the cap evicted, and the count is the number of Register events on the
   surviving chain plus the registers evicted before they were orphaned.
   */
  lemma {:induction false} CountsAreConserved(ops: seq<StatsOp>)
    requires AllowedRun(ops)
    ensures Conserved(Exec(ops))
    ensures Exec(ops).stats.total - Registers(Exec(ops).stats.events) == Registers(Exec(ops).evicted) + Exec(ops).lost
  {
    if ops != [] {
      var front, op := ops[..|ops| - 1], ops[|ops| - 1];
      forall i | 0 <= i < |front| ensures Allowed(Exec(front[..i]), front[i]) {
        assert front[..i] == ops[..i];
      }
      CountsAreConserved(front);
      match op {
        case Note(ev) => RecordConserves(Exec(front), ev);
        case Undo(from) => RollbackNeverSaturates(Exec(front), from);
      }
    }
    RegistersConcat(Exec(ops).evicted, Exec(ops).stats.events);
  }

  /**
   When the count is exact before a rollback, it is exact after it if and only if the cap had not
   evicted a Register event at or above the rollback height.
   */
  lemma RollbackExactIff(s: Tally, from: u32)
    requires Conserved(s) && s.stats.total == Registers(s.log)
    ensures Step(s, Undo(from)).stats.total == Registers(Below(s.log, from)) <==>
              !exists e :: e in s.evicted && e.height >= from && e.state.kind.Register?
  {
    RollbackNeverSaturates(s, from);
    RegistersPresent(s.evicted, from);
  }

  lemma {:induction false} RegistersPresent(s: seq<Event>, from: nat)
    ensures RegistersAtLeast(s, from) == 0 <==>
              !exists e :: e in s && e.height >= from && e.state.kind.Register?
  {
    if s != [] {
      var front, x := s[..|s| - 1], s[|s| - 1];
      assert s == front + [x];
      RegistersPresent(front, from);
      AtLeastSnoc(front, x, from);
      assert forall e :: e in s <==> e in front || e == x;
      if x.height >= from {
        var kept := AtLeast(front, from);
        assert (kept + [x])[..|kept|] == kept;
      }
    }
  }

  function Copies(ev: Event, n: nat): seq<Event> {
    if n == 0 then [] else Copies(ev, n - 1) + [ev]
  }

  lemma {:induction false} CopiesAre(ev: Event, n: nat)
    ensures |Copies(ev, n)| == n && forall i :: 0 <= i < n ==> Copies(ev, n)[i] == ev
    ensures ev.state.kind.Register? ==> Registers(Copies(ev, n)) == n
  {
    if n > 0 {
      CopiesAre(ev, n - 1);
      assert Copies(ev, n)[..n - 1] == Copies(ev, n - 1);
    }
  }

  /** The run of `m` notes of one event. */
  function Repeated(ev: Event, m: nat): seq<StatsOp> {
    if m == 0 then [] else Repeated(ev, m - 1) + [Note(ev)]
  }

  lemma {:induction false} RepeatedAre(ev: Event, m: nat)
    ensures |Repeated(ev, m)| == m && forall i :: 0 <= i < m ==> Repeated(ev, m)[i] == Note(ev)
    ensures forall i :: 0 <= i <= m ==> Repeated(ev, m)[..i] == Repeated(ev, i)
  {
    if m > 0 {
      RepeatedAre(ev, m - 1);
      assert Repeated(ev, m)[..m] == Repeated(ev, m);
      forall i | 0 <= i < m ensures Repeated(ev, m)[..i] == Repeated(ev, i) {
        assert Repeated(ev, m)[..i] == Repeated(ev, m - 1)[..i];
      }
    }
  }

  function Kept(m: nat): nat {
    if m > RECENT_EVENTS_MAX then RECENT_EVENTS_MAX else m
  }

  /** After `m` registers at one height the newest fifty are held and the others are evicted. */
  function AfterRepeated(ev: Event, m: nat): Tally
    requires m <= MAX_U64
  {
    Tally(Stats(m, Copies(ev, Kept(m))), Copies(ev, m - Kept(m)), 0, Copies(ev, m))
  }

  lemma CopiesShift(ev: Event, n: nat)
    ensures (Copies(ev, n) + [ev])[1..] == Copies(ev, n) && (Copies(ev, n) + [ev])[..1] == [ev]
  {
    CopiesAre(ev, n);
  }

  lemma {:induction false} RepeatedRun(ev: Event, m: nat)
    requires ev.state.kind.Register? && m <= MAX_U64
    ensures Exec(Repeated(ev, m)) == AfterRepeated(ev, m)
  {
    if m > 0 {
      RepeatedRun(ev, m - 1);
      RepeatedAre(ev, m);
      NoteRepeated(ev, m - 1);
    }
  }

  lemma NoteRepeated(ev: Event, m: nat)
    requires ev.state.kind.Register? && m < MAX_U64
    ensures Step(AfterRepeated(ev, m), Note(ev)) == AfterRepeated(ev, m + 1)
  {
    var held := Copies(ev, Kept(m));
    CopiesAre(ev, Kept(m));
    CopiesShift(ev, Kept(m));
    assert (held + [ev])[0..] == held + [ev] && Copies(ev, 0) + (held + [ev])[..0] == [];
    if m < RECENT_EVENTS_MAX {
      assert Overflow(|held + [ev]|) == 0 && m - Kept(m) == 0;
    } else {
      assert Overflow(|held + [ev]|) == 1 && Kept(m) == Kept(m + 1);
    }
  }

  lemma UndoRepeated(ev: Event, m: nat)
    requires ev.state.kind.Register? && m <= MAX_U64
    ensures Step(AfterRepeated(ev, m), Undo(ev.height)).stats == Stats(m - Kept(m), [])
    ensures Step(AfterRepeated(ev, m), Undo(ev.height)).log == []
  {
    CopiesAre(ev, Kept(m));
    CopiesAre(ev, m);
    NoneBelow(Copies(ev, m), ev.height);
    NoneBelow(Copies(ev, Kept(m)), ev.height);
    PopIsBelow(Copies(ev, Kept(m)), ev.height);
  }

  lemma {:induction false} RepeatedAllowed(ev: Event, m: nat)
    requires ev.state.kind.Register? && m <= MAX_U64
    ensures AllowedRun(Repeated(ev, m))
  {
    RepeatedAre(ev, m);
    forall i | 0 <= i < m ensures Allowed(Exec(Repeated(ev, m)[..i]), Repeated(ev, m)[i]) {
      RepeatedRun(ev, i);
      CopiesAre(ev, i);
    }
  }

  /**
   The count does go wrong on runs: of `m` registrations in one block, those beyond the fifty newest
   stay counted when a reorganization removes the block.
   */
  lemma EvictedRegisterStaysCounted(ev: Event, m: nat)
    requires ev.state.kind.Register? && m <= MAX_U64
    ensures AllowedRun(Repeated(ev, m))
    ensures
      var after := Step(Exec(Repeated(ev, m)), Undo(ev.height));
      after.log == [] && after.stats == Stats(SatSub(m, RECENT_EVENTS_MAX), [])
  {
    RepeatedAllowed(ev, m);
    RepeatedRun(ev, m);
    UndoRepeated(ev, m);
  }

  lemma NoneBelow(s: seq<Event>, h: nat)
    requires forall e :: e in s ==> e.height >= h
    ensures Below(s, h) == []
  {
    BelowNone([], s, h);
    assert [] + s == s;
  }
}
