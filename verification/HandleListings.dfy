/**
 Named Handle slots listed by expiration: once from the in-memory stores, once by the database query,
 and why the two give the same rows in the same order.
 */
module HandleListings {
  import opened Common
  import opened Registry
  import opened Versions
  import opened Indexer
  import opened Listing

  datatype Cursor = Cursor(expiration: nat, handle: string)

  type Row = Item<Entry<StoredSlot>>

  /** Expiration window, cursor and registry of one listing. */
  datatype Query = Query(registry: Bytes32, min: nat, max: nat, after: Option<Cursor>)

  /** The stored slot of a key, if it has one. */
  function SlotAt(slots: Store<StoredSlot>, k: Key): Option<Entry<StoredSlot>> {
    if k in slots then slots[k].current else None
  }

  /** The handle text registered for a key; empty when unknown. */
  function NameAt(regs: Store<StoredRegistration>, k: Key): string {
    if k in regs && regs[k].current.Some? then regs[k].current.value.state.handle else ""
  }

  function Expiration(slot: Entry<StoredSlot>): u64 {
    slot.state.value.expiration
  }

  predicate Passes(after: Option<Cursor>, expiration: int, handle: string) {
    after.Some? ==> KeyLess(after.value.expiration, after.value.handle, expiration, handle)
  }

  /** A slot a listing may show: of its registry, in its window, named, and after its cursor. */
  predicate Shown(slot: Option<Entry<StoredSlot>>, name: string, k: Key, q: Query) {
    && k.registry == q.registry && slot.Some? && name != ""
    && q.min <= Expiration(slot.value) <= q.max
    && Passes(q.after, Expiration(slot.value), name)
  }

  function RowOf(slot: Entry<StoredSlot>, name: string): Row {
    Item(Expiration(slot), name, slot)
  }

  /** The rows a listing is about, before ordering and limit. */
  ghost function NamedRows(slots: Store<StoredSlot>, regs: Store<StoredRegistration>, q: Query): set<Row> {
    set k | k in slots && Shown(SlotAt(slots, k), NameAt(regs, k), k, q) ::
      RowOf(slots[k].current.value, NameAt(regs, k))
  }

  // ---------------------------------------------------------------------------------
  // What projection keeps of every stored record
  // ---------------------------------------------------------------------------------

  /** Every persisted record has a current state. */
  ghost predicate HaveCurrent<T>(store: Store<T>) {
    forall k :: k in store ==> store[k].current.Some?
  }

  lemma {:induction false} CommitKeepsCurrent<T>(store: Store<T>, items: seq<(Key, T)>, height: u32)
    requires HaveCurrent(store)
    ensures HaveCurrent(Committed(store, items, height))
  {
    if items != [] {
      CommitKeepsCurrent(store, items[..|items| - 1], height);
    }
  }

  /** A rollback that leaves a record without a current state leaves it without history too, and removes it. */
  lemma RollbackKeepsCurrent<T>(store: Store<T>, from: u32)
    ensures HaveCurrent(StoreRolledBack(store, from))
  {
  }

  /** Every state a record holds was projected under the record's own key. */
  ghost predicate Keyed(slots: Store<StoredSlot>) {
    forall k :: k in slots ==> KeyedRecord(slots[k], k)
  }

  ghost predicate KeyedRecord(r: Record<StoredSlot>, k: Key) {
    forall e :: e in Held(r) ==> e.state.value.handle == k.handle
  }

  lemma {:induction false} BelowWithin<T>(s: seq<Entry<T>>, h: nat, e: Entry<T>)
    ensures e in Below(s, h) ==> e in s
    ensures e in AtLeast(s, h) ==> e in s
  {
    if s != [] {
      BelowWithin(s[..|s| - 1], h, e);
    }
  }

  lemma PushKeepsKeyed(r: Record<StoredSlot>, k: Key, e: Entry<StoredSlot>, peak: u32)
    requires KeyedRecord(r, k) && e.state.value.handle == k.handle
    ensures KeyedRecord(Pushed(r, e, peak), k)
  {
    var cutoff := SatSub(peak, RETENTION);
    forall x | x in Held(Pushed(r, e, peak)) ensures x.state.value.handle == k.handle {
      BelowWithin(Held(r), cutoff, x);
      if x != e {
        assert x in Pruned(Held(r), peak);
        if Latest(Held(r), cutoff).Some? {
          BelowWithin(Held(r), cutoff, Latest(Held(r), cutoff).value);
        }
      }
    }
  }

  lemma RollbackKeepsKeyed(r: Record<StoredSlot>, k: Key, from: u32)
    requires KeyedRecord(r, k)
    ensures KeyedRecord(RolledBack(r, from), k)
  {
    forall x | x in Held(RolledBack(r, from)) ensures x.state.value.handle == k.handle {
      BelowWithin(r.history, from, x);
    }
  }

  ghost predicate KeyedItem(item: (Key, StoredSlot)) {
    item.1.value.handle == item.0.handle
  }

  lemma {:induction false} SlotItemsKeyed(registry: Bytes32, created: seq<SlotValue>, parents: map<SlotValue, Lineage>)
    ensures forall i :: 0 <= i < |SlotItems(registry, created, parents)| ==>
      KeyedItem(SlotItems(registry, created, parents)[i])
  {
    if created != [] {
      SlotItemsKeyed(registry, created[..|created| - 1], parents);
    }
  }

  lemma {:induction false} CommitKeepsKeyed(slots: Store<StoredSlot>, items: seq<(Key, StoredSlot)>, height: u32)
    requires Keyed(slots) && forall i :: 0 <= i < |items| ==> KeyedItem(items[i])
    ensures Keyed(Committed(slots, items, height))
  {
    if items != [] {
      var front, item := items[..|items| - 1], items[|items| - 1];
      CommitKeepsKeyed(slots, front, height);
      assert KeyedItem(item);
      var before := Committed(slots, front, height);
      PushKeepsKeyed(Lookup(before, item.0), item.0, Entry(height, item.1), height);
    }
  }

  /** A run of the index: transitions of its registries, and rollbacks. */
  datatype Change = Replay(registry: Bytes32, t: Transition) | Undo(from: u32)

  function IndexAfter(changes: seq<Change>): Index {
    if changes == [] then Index(map[], map[], map[], map[])
    else
      var x := IndexAfter(changes[..|changes| - 1]);
      match changes[|changes| - 1]
      case Replay(registry, t) => ApplyTransition(x, registry, t)
      case Undo(from) => IndexRolledBack(x, from)
  }

  /** In every reachable index all slot and registration records have a current state under their own key. */
  lemma {:induction false} ReachableRecordsAreCurrent(changes: seq<Change>)
    ensures HaveCurrent(IndexAfter(changes).slots) && Keyed(IndexAfter(changes).slots)
    ensures HaveCurrent(IndexAfter(changes).registrations)
  {
    if changes != [] {
      var front := changes[..|changes| - 1];
      var x := IndexAfter(front);
      ReachableRecordsAreCurrent(front);
      match changes[|changes| - 1]
      case Replay(registry, t) =>
        CommitKeepsCurrent(x.slots, SlotItems(registry, Created(t.logs), t.parents), t.height);
        CommitKeepsCurrent(x.registrations, Facts(registry, t.logs), t.height);
        SlotItemsKeyed(registry, Created(t.logs), t.parents);
        CommitKeepsKeyed(x.slots, SlotItems(registry, Created(t.logs), t.parents), t.height);
      case Undo(from) =>
        RollbackKeepsCurrent(x.slots, from);
        RollbackKeepsCurrent(x.registrations, from);
        forall k | k in StoreRolledBack(x.slots, from) ensures KeyedRecord(StoreRolledBack(x.slots, from)[k], k) {
          RollbackKeepsKeyed(x.slots[k], k, from);
        }
    }
  }

  // ---------------------------------------------------------------------------------
  // The in-memory listing
  // ---------------------------------------------------------------------------------

  predicate SameName(regs: Store<StoredRegistration>, k: Key, l: Key) {
    k.registry == l.registry && NameAt(regs, k) == NameAt(regs, l) != ""
  }

  /** Different handles of a registry have different text: a handle's hash determines it. */
  ghost predicate UniqueHandles(regs: Store<StoredRegistration>) {
    forall k, l :: k in regs && l in regs && SameName(regs, k, l) ==> k == l
  }

  /** The order in which a hash map happens to yield its keys. */
  ghost predicate Enumerates(order: seq<Key>, slots: Store<StoredSlot>) {
    (forall k :: k in order <==> k in slots) && forall i, j :: 0 <= i < j < |order| ==> order[i] != order[j]
  }

  function Candidate(slots: Store<StoredSlot>, k: Key, q: Query): seq<Entry<StoredSlot>> {
    if k.registry != q.registry then []
    else
      match SlotAt(slots, k)
      case None => []
      case Some(slot) => if q.min <= Expiration(slot) <= q.max then [slot] else []
  }

  function Candidates(slots: Store<StoredSlot>, order: seq<Key>, q: Query): seq<Entry<StoredSlot>> {
    if order == [] then []
    else Candidates(slots, order[..|order| - 1], q) + Candidate(slots, order[|order| - 1], q)
  }

  function Named(regs: Store<StoredRegistration>, slot: Entry<StoredSlot>, q: Query): seq<Row> {
    var name := NameAt(regs, Key(q.registry, slot.state.value.handle));
    if name == "" || !Passes(q.after, Expiration(slot), name) then [] else [RowOf(slot, name)]
  }

  function AllNamed(regs: Store<StoredRegistration>, candidates: seq<Entry<StoredSlot>>, q: Query): seq<Row> {
    if candidates == [] then []
    else AllNamed(regs, candidates[..|candidates| - 1], q) + Named(regs, candidates[|candidates| - 1], q)
  }

  /** Whatever order the map yields, the listing is the first rows of the shown set. */
  method ListInMemory(slots: Store<StoredSlot>, order: seq<Key>, regs: Store<StoredRegistration>, q: Query, limit: nat)
    returns (out: seq<Row>)
    requires Enumerates(order, slots) && Keyed(slots) && UniqueHandles(regs)
    ensures FirstOf(out, NamedRows(slots, regs, q), limit)
  {
    InMemoryRows(slots, order, regs, q);
    ghost var full := InOrder(AllNamed(regs, Candidates(slots, order, q), q));
    if limit == 0 {
      assert Take(full, 0) == [];
      return [];
    }
    var candidates := CollectCandidates(slots, order, q);
    out := NameCandidates(regs, candidates, q);
    out := Take(InOrder(out), limit);
    assert out == Take(full, limit);
  }

  method CollectCandidates(slots: Store<StoredSlot>, order: seq<Key>, q: Query)
    returns (candidates: seq<Entry<StoredSlot>>)
    ensures candidates == Candidates(slots, order, q)
  {
    candidates := [];
    for i := 0 to |order|
      invariant candidates == Candidates(slots, order[..i], q)
    {
      assert order[..i + 1][..i] == order[..i];
      candidates := candidates + Candidate(slots, order[i], q);
    }
    assert order[..|order|] == order;
  }

  method NameCandidates(regs: Store<StoredRegistration>, candidates: seq<Entry<StoredSlot>>, q: Query)
    returns (out: seq<Row>)
    ensures out == AllNamed(regs, candidates, q)
  {
    out := [];
    for i := 0 to |candidates|
      invariant out == AllNamed(regs, candidates[..i], q)
    {
      assert candidates[..i + 1][..i] == candidates[..i];
      var slot := candidates[i];
      var k := Key(q.registry, slot.state.value.handle);
      if k !in regs || regs[k].current.None? {
        assert Named(regs, slot, q) == [];
        continue;
      }
      var name := regs[k].current.value.state.handle;
      if name == "" || !Passes(q.after, Expiration(slot), name) {
        assert Named(regs, slot, q) == [];
        continue;
      }
      assert Named(regs, slot, q) == [RowOf(slot, name)];
      out := out + [RowOf(slot, name)];
    }
    assert candidates[..|candidates|] == candidates;
  }

  lemma {:induction false} CandidatesAre(slots: Store<StoredSlot>, order: seq<Key>, q: Query, x: Entry<StoredSlot>)
    ensures x in Candidates(slots, order, q) <==> exists k :: k in order && x in Candidate(slots, k, q)
  {
    if order != [] {
      var front, last := order[..|order| - 1], order[|order| - 1];
      assert order == front + [last];
      CandidatesAre(slots, front, q, x);
    }
  }

  lemma {:induction false} NamedAre(regs: Store<StoredRegistration>, candidates: seq<Entry<StoredSlot>>, q: Query,
                                    x: Row)
    ensures x in AllNamed(regs, candidates, q) <==> x.body in candidates && x in Named(regs, x.body, q)
  {
    if candidates != [] {
      var front, last := candidates[..|candidates| - 1], candidates[|candidates| - 1];
      assert candidates == front + [last];
      NamedAre(regs, front, q, x);
    }
  }

  /** No two candidates are of the same handle. */
  ghost predicate DistinctSlots(s: seq<Entry<StoredSlot>>) {
    forall i, j :: 0 <= i < j < |s| ==> s[i].state.value.handle != s[j].state.value.handle
  }

  lemma {:induction false} CandidatesDistinct(slots: Store<StoredSlot>, order: seq<Key>, q: Query)
    requires Keyed(slots)
    requires forall i, j :: 0 <= i < j < |order| ==> order[i] != order[j]
    ensures DistinctSlots(Candidates(slots, order, q))
  {
    if order != [] {
      var front, last := order[..|order| - 1], order[|order| - 1];
      CandidatesDistinct(slots, front, q);
      var rest := Candidates(slots, front, q);
      forall i | 0 <= i < |rest| && Candidate(slots, last, q) != []
        ensures rest[i].state.value.handle != last.handle
      {
        CandidatesAre(slots, front, q, rest[i]);
        assert rest[i] in rest;
        var k :| k in front && rest[i] in Candidate(slots, k, q);
        HeldUnder(slots, k, q, rest[i]);
        assert k.registry == last.registry;
      }
      if Candidate(slots, last, q) != [] {
        HeldUnder(slots, last, q, Candidate(slots, last, q)[0]);
      }
    }
  }

  lemma HeldUnder(slots: Store<StoredSlot>, k: Key, q: Query, x: Entry<StoredSlot>)
    requires Keyed(slots) && x in Candidate(slots, k, q)
    ensures k in slots && k.registry == q.registry && slots[k].current == Some(x) && x.state.value.handle == k.handle
  {
    assert x in Held(slots[k]);
  }

  lemma {:induction false} NamedDistinct(regs: Store<StoredRegistration>, candidates: seq<Entry<StoredSlot>>, q: Query)
    requires UniqueHandles(regs) && DistinctSlots(candidates)
    ensures DistinctHandles(AllNamed(regs, candidates, q))
  {
    if candidates != [] {
      var front, last := candidates[..|candidates| - 1], candidates[|candidates| - 1];
      assert candidates == front + [last];
      NamedDistinct(regs, front, q);
      var rest := AllNamed(regs, front, q);
      forall i | 0 <= i < |rest| && Named(regs, last, q) != []
        ensures rest[i].handle != Named(regs, last, q)[0].handle
      {
        NamedAre(regs, front, q, rest[i]);
        assert rest[i] in rest && rest[i].body in front;
      }
    }
  }

  lemma RowShown(slots: Store<StoredSlot>, order: seq<Key>, regs: Store<StoredRegistration>, q: Query, x: Row)
    requires Enumerates(order, slots) && Keyed(slots)
    requires x in AllNamed(regs, Candidates(slots, order, q), q)
    ensures x in NamedRows(slots, regs, q)
  {
    NamedAre(regs, Candidates(slots, order, q), q, x);
    CandidatesAre(slots, order, q, x.body);
    var k :| k in order && x.body in Candidate(slots, k, q);
    HeldUnder(slots, k, q, x.body);
    assert Key(q.registry, x.body.state.value.handle) == k;
    assert Shown(SlotAt(slots, k), NameAt(regs, k), k, q);
  }

  lemma ShownIsRow(slots: Store<StoredSlot>, order: seq<Key>, regs: Store<StoredRegistration>, q: Query, x: Row)
    requires Enumerates(order, slots) && Keyed(slots)
    requires x in NamedRows(slots, regs, q)
    ensures x in AllNamed(regs, Candidates(slots, order, q), q)
  {
    var k :| k in slots && Shown(SlotAt(slots, k), NameAt(regs, k), k, q)
      && x == RowOf(slots[k].current.value, NameAt(regs, k));
    assert x.body in Candidate(slots, k, q);
    HeldUnder(slots, k, q, x.body);
    assert Key(q.registry, x.body.state.value.handle) == k;
    assert x in Named(regs, x.body, q);
    CandidatesAre(slots, order, q, x.body);
    NamedAre(regs, Candidates(slots, order, q), q, x);
  }

  lemma InMemoryRows(slots: Store<StoredSlot>, order: seq<Key>, regs: Store<StoredRegistration>, q: Query)
    requires Enumerates(order, slots) && Keyed(slots) && UniqueHandles(regs)
    ensures Listed(InOrder(AllNamed(regs, Candidates(slots, order, q), q)), NamedRows(slots, regs, q))
  {
    var candidates := Candidates(slots, order, q);
    var rows := AllNamed(regs, candidates, q);
    CandidatesDistinct(slots, order, q);
    NamedDistinct(regs, candidates, q);
    InOrderAscends(rows);
    forall x: Row ensures x in InOrder(rows) <==> x in NamedRows(slots, regs, q) {
      InOrderKeeps(rows, x);
      if x in rows {
        RowShown(slots, order, regs, q, x);
      }
      if x in NamedRows(slots, regs, q) {
        ShownIsRow(slots, order, regs, q, x);
      }
    }
  }
}
