/**
 The persisted Handle-slot table: records beside an indexed expiration column, the listing query over it,
 and its agreement with the in-memory listing.
 */
module HandleTable {
  import opened Common
  import opened Registry
  import opened Versions
  import opened Indexer
  import opened Listing
  import opened HandleListings

  const SIGN: nat := 0x8000_0000_0000_0000

  /** An unsigned number bound to a signed 64-bit column or parameter. */
  function AsI64(x: nat): int {
    var y := AsU64(x);
    if y < SIGN then y else y - 0x1_0000_0000_0000_0000
  }

  datatype TableRow = TableRow(record: Record<StoredSlot>, expiration: int)

  type Table = map<Key, TableRow>

  function Stored(record: Record<StoredSlot>): TableRow {
    TableRow(record, AsI64(if record.current.Some? then Expiration(record.current.value) else 0))
  }

  /** The table holds the store's records, each beside its current expiration. */
  ghost predicate Mirrors(table: Table, slots: Store<StoredSlot>) {
    table.Keys == slots.Keys && forall k :: k in slots ==> table[k] == Stored(slots[k])
  }

  class DbHandleSlotStore {
    var rows: Table

    constructor ()
      ensures rows == map[] && Mirrors(rows, map[])
    {
      rows := map[];
    }

    method Upsert(k: Key, record: Record<StoredSlot>, ghost slots: Store<StoredSlot>)
      requires Mirrors(rows, slots)
      modifies this
      ensures rows == old(rows)[k := Stored(record)]
      ensures Mirrors(rows, slots[k := record])
    {
      var expiration := if record.current.Some? then Expiration(record.current.value) else 0;
      rows := rows[k := TableRow(record, AsI64(expiration))];
    }

    method Remove(k: Key, ghost slots: Store<StoredSlot>)
      requires Mirrors(rows, slots)
      modifies this
      ensures rows == old(rows) - {k}
      ensures Mirrors(rows, slots - {k})
    {
      rows := rows - {k};
    }

    method ProjectOne(k: Key, e: Entry<StoredSlot>, ghost slots: Store<StoredSlot>)
      requires Mirrors(rows, slots)
      modifies this
      ensures Mirrors(rows, slots[k := Pushed(Lookup(slots, k), e, e.height)])
    {
      var record := Pushed(if k in rows then rows[k].record else Record(None, []), e, e.height);
      Upsert(k, record, slots);
    }

    /** Projecting a transition's created slots leaves the table mirroring the committed store. */
    method Project(items: seq<(Key, StoredSlot)>, height: u32, ghost slots: Store<StoredSlot>)
      requires Mirrors(rows, slots)
      modifies this
      ensures Mirrors(rows, Committed(slots, items, height))
    {
      for i := 0 to |items|
        invariant Mirrors(rows, Committed(slots, items[..i], height))
      {
        assert items[..i + 1] == items[..i] + [items[i]];
        CommitSnoc(slots, items[..i], items[i], height);
        ProjectOne(items[i].0, Entry(height, items[i].1), Committed(slots, items[..i], height));
      }
      assert items[..|items|] == items;
    }

    /** A rollback visits every key, storing what is left and removing what is empty. */
    method RollbackAll(from: u32, ghost slots: Store<StoredSlot>)
      requires Mirrors(rows, slots)
      modifies this
      ensures Mirrors(rows, StoreRolledBack(slots, from))
    {
      var keys := rows.Keys;
      ghost var store := slots;
      while keys != {}
        invariant keys <= slots.Keys && store.Keys <= slots.Keys
        invariant forall k :: k in keys ==> k in store && store[k] == slots[k]
        invariant forall k :: k in slots.Keys - keys ==> Visited(store, slots, k, from)
        invariant Mirrors(rows, store)
      {
        var k :| k in keys;
        ghost var before := store;
        var record := RolledBack(rows[k].record, from);
        if record.current.None? && record.history == [] {
          Remove(k, store);
          store := store - {k};
        } else {
          Upsert(k, record, store);
          store := store[k := record];
        }
        assert Visited(store, slots, k, from);
        forall l | l in slots.Keys - keys ensures Visited(store, slots, l, from) {
          assert Visited(before, slots, l, from);
        }
        keys := keys - {k};
      }
      assert store == StoreRolledBack(slots, from) by {
        forall k ensures k in store <==> k in StoreRolledBack(slots, from) {
          if k in slots {
            assert Visited(store, slots, k, from);
          }
        }
        forall k | k in store ensures store[k] == RolledBack(slots[k], from) {
          assert Visited(store, slots, k, from);
        }
      }
    }
  }

  ghost predicate Visited(store: Store<StoredSlot>, slots: Store<StoredSlot>, k: Key, from: u32)
    requires k in slots
  {
    if RolledBack(slots[k], from) == Record(None, []) then k !in store
    else k in store && store[k] == RolledBack(slots[k], from)
  }

  // ---------------------------------------------------------------------------------
  // The query
  // ---------------------------------------------------------------------------------

  type Hit = Item<Record<StoredSlot>>

  /** The cursor as the query binds it: a missing one stands before every row. */
  predicate PassesBound(after: Option<Cursor>, expiration: int, handle: string) {
    match after
    case None => KeyLess(0, "", expiration, handle)
    case Some(c) => KeyLess(AsI64(c.expiration), c.handle, expiration, handle)
  }

  predicate Selected(row: TableRow, name: string, k: Key, q: Query) {
    && k.registry == q.registry && name != ""
    && AsI64(q.min) <= row.expiration <= AsI64(q.max)
    && PassesBound(q.after, row.expiration, name)
  }

  ghost function SelectedRows(table: Table, regs: Store<StoredRegistration>, q: Query): set<Hit> {
    set k | k in table && Selected(table[k], NameAt(regs, k), k, q) ::
      Item(table[k].expiration, NameAt(regs, k), table[k].record)
  }

  /** What the query returns: the first selected rows, ordered by its two columns. */
  ghost predicate Answers(hits: seq<Hit>, table: Table, regs: Store<StoredRegistration>, q: Query, limit: nat) {
    FirstOf(hits, SelectedRows(table, regs, q), limit)
  }

  /** The rows made of the query's answer; a record without a current state is dropped after the limit. */
  function Rows(hits: seq<Hit>): seq<Row> {
    if hits == [] then []
    else
      var h := hits[|hits| - 1];
      Rows(hits[..|hits| - 1])
        + if h.handle == "" || h.body.current.None? then []
          else [Item(Expiration(h.body.current.value), h.handle, h.body.current.value)]
  }

  // ---------------------------------------------------------------------------------
  // Agreement
  // ---------------------------------------------------------------------------------

  ghost predicate WindowFits(q: Query) {
    q.min < SIGN && q.max < SIGN
  }

  predicate CursorFits(after: Option<Cursor>) {
    after.Some? ==> after.value.expiration < SIGN
  }

  /** A hit whose row needs no filtering and whose column is its expiration. */
  predicate Faithful(h: Hit) {
    h.handle != "" && h.body.current.Some? && h.expiration == Expiration(h.body.current.value)
  }

  function Lowered(h: Hit): Row
    requires Faithful(h)
  {
    Item(h.expiration, h.handle, h.body.current.value)
  }

  lemma {:induction false} RowsKeepOrder(hits: seq<Hit>)
    requires forall i :: 0 <= i < |hits| ==> Faithful(hits[i])
    ensures |Rows(hits)| == |hits| && forall i :: 0 <= i < |hits| ==> Rows(hits)[i] == Lowered(hits[i])
  {
    if hits != [] {
      RowsKeepOrder(hits[..|hits| - 1]);
    }
  }

  lemma StoredFaithful(slots: Store<StoredSlot>, regs: Store<StoredRegistration>, q: Query, k: Key)
    requires k in slots && HaveCurrent(slots) && WindowFits(q) && CursorFits(q.after)
    ensures Expiration(slots[k].current.value) < SIGN ==>
      Stored(slots[k]).expiration == Expiration(slots[k].current.value)
    ensures Selected(Stored(slots[k]), NameAt(regs, k), k, q) <==> Shown(SlotAt(slots, k), NameAt(regs, k), k, q)
  {
    var e := Expiration(slots[k].current.value);
    assert AsI64(e) == if e < SIGN then e else e - 0x1_0000_0000_0000_0000;
    assert AsI64(q.min) == q.min && AsI64(q.max) == q.max;
    assert q.after.Some? ==> AsI64(q.after.value.expiration) == q.after.value.expiration;
    assert NameAt(regs, k) != "" ==> StrLess("", NameAt(regs, k));
  }

  lemma HitIsRow(table: Table, slots: Store<StoredSlot>, regs: Store<StoredRegistration>, q: Query, h: Hit)
    requires Mirrors(table, slots) && HaveCurrent(slots) && WindowFits(q) && CursorFits(q.after)
    requires h in SelectedRows(table, regs, q)
    ensures Faithful(h) && Lowered(h) in NamedRows(slots, regs, q)
  {
    var k :| k in table && Selected(table[k], NameAt(regs, k), k, q)
      && h == Item(table[k].expiration, NameAt(regs, k), table[k].record);
    StoredFaithful(slots, regs, q, k);
    assert Lowered(h) == RowOf(slots[k].current.value, NameAt(regs, k));
  }

  lemma RowIsHit(table: Table, slots: Store<StoredSlot>, regs: Store<StoredRegistration>, q: Query, x: Row)
    requires Mirrors(table, slots) && HaveCurrent(slots) && WindowFits(q) && CursorFits(q.after)
    requires x in NamedRows(slots, regs, q)
    ensures exists h :: h in SelectedRows(table, regs, q) && Faithful(h) && Lowered(h) == x
  {
    var k :| k in slots && Shown(SlotAt(slots, k), NameAt(regs, k), k, q)
      && x == RowOf(slots[k].current.value, NameAt(regs, k));
    StoredFaithful(slots, regs, q, k);
    var h := Item(table[k].expiration, NameAt(regs, k), table[k].record);
    assert h in SelectedRows(table, regs, q);
    assert Lowered(h) == x;
  }

  lemma FullRowsListed(full: seq<Hit>, table: Table, slots: Store<StoredSlot>, regs: Store<StoredRegistration>,
                       q: Query)
    requires Mirrors(table, slots) && HaveCurrent(slots) && WindowFits(q) && CursorFits(q.after)
    requires Listed(full, SelectedRows(table, regs, q))
    ensures Listed(Rows(full), NamedRows(slots, regs, q))
    ensures forall i :: 0 <= i < |full| ==> Faithful(full[i])
  {
    forall i | 0 <= i < |full| ensures Faithful(full[i]) && Lowered(full[i]) in NamedRows(slots, regs, q) {
      assert full[i] in full;
      HitIsRow(table, slots, regs, q, full[i]);
    }
    RowsKeepOrder(full);
    forall x: Row ensures x in Rows(full) <==> x in NamedRows(slots, regs, q) {
      if x in NamedRows(slots, regs, q) {
        RowIsListed(full, table, slots, regs, q, x);
      }
    }
  }

  lemma RowIsListed(full: seq<Hit>, table: Table, slots: Store<StoredSlot>, regs: Store<StoredRegistration>, q: Query,
                    x: Row)
    requires Mirrors(table, slots) && HaveCurrent(slots) && WindowFits(q) && CursorFits(q.after)
    requires Listed(full, SelectedRows(table, regs, q)) && x in NamedRows(slots, regs, q)
    requires forall i :: 0 <= i < |full| ==> Faithful(full[i])
    ensures x in Rows(full)
  {
    RowsKeepOrder(full);
    RowIsHit(table, slots, regs, q, x);
    var h :| h in SelectedRows(table, regs, q) && Faithful(h) && Lowered(h) == x;
    assert h in full;
    var i :| 0 <= i < |full| && full[i] == h;
    assert Rows(full)[i] == x;
  }

  lemma RowsOfFirst(full: seq<Hit>, limit: nat)
    requires forall i :: 0 <= i < |full| ==> Faithful(full[i])
    ensures Rows(Take(full, limit)) == Take(Rows(full), limit)
  {
    RowsKeepOrder(full);
    var first := Take(full, limit);
    RowsKeepOrder(first);
    assert |Rows(first)| == |Take(Rows(full), limit)|;
    forall i | 0 <= i < |first| ensures Rows(first)[i] == Rows(full)[i] {
      assert first[i] == full[i];
    }
  }

  /** With the window and cursor inside the signed range, memory and database list the same rows in the same order. */
  lemma ListingsAgree(mem: seq<Row>, hits: seq<Hit>, table: Table, slots: Store<StoredSlot>,
                      regs: Store<StoredRegistration>,
                      q: Query, limit: nat)
    requires Mirrors(table, slots) && HaveCurrent(slots) && WindowFits(q) && CursorFits(q.after)
    requires FirstOf(mem, NamedRows(slots, regs, q), limit) && Answers(hits, table, regs, q, limit)
    ensures mem == Rows(hits)
  {
    var full :| Listed(full, SelectedRows(table, regs, q)) && hits == Take(full, limit);
    var rows :| Listed(rows, NamedRows(slots, regs, q)) && mem == Take(rows, limit);
    FullRowsListed(full, table, slots, regs, q);
    ListedOnce(Rows(full), rows, NamedRows(slots, regs, q));
    RowsOfFirst(full, limit);
  }

  /** A cursor past the signed range binds as a negative number: memory shows nothing, the query starts over. */
  lemma WrappedCursor(table: Table, slots: Store<StoredSlot>, regs: Store<StoredRegistration>, q: Query)
    requires Mirrors(table, slots) && HaveCurrent(slots) && WindowFits(q)
    requires !CursorFits(q.after) && q.after.value.expiration <= MAX_U64
    ensures NamedRows(slots, regs, q) == {}
    ensures SelectedRows(table, regs, q) == SelectedRows(table, regs, q.(after := None))
  {
    forall k | k in slots
      ensures !Shown(SlotAt(slots, k), NameAt(regs, k), k, q)
      ensures Selected(table[k], NameAt(regs, k), k, q) <==> Selected(table[k], NameAt(regs, k), k, q.(after := None))
    {
      StoredFaithful(slots, regs, q.(after := None), k);
      assert AsI64(q.after.value.expiration) < 0;
    }
  }

  /**
   The two listings agree exactly when the cursor fits the signed column, or there is nothing to show anyway.
   */
  lemma ListingsAgreeIff(mem: seq<Row>, hits: seq<Hit>, table: Table, slots: Store<StoredSlot>,
                         regs: Store<StoredRegistration>,
                         q: Query, limit: nat)
    requires Mirrors(table, slots) && HaveCurrent(slots) && WindowFits(q)
    requires q.after.Some? ==> q.after.value.expiration <= MAX_U64
    requires FirstOf(mem, NamedRows(slots, regs, q), limit) && Answers(hits, table, regs, q, limit)
    ensures mem == Rows(hits) <==> CursorFits(q.after) || limit == 0 || NamedRows(slots, regs, q.(after := None)) == {}
  {
    if CursorFits(q.after) {
      ListingsAgree(mem, hits, table, slots, regs, q, limit);
    } else {
      var q0 := q.(after := None);
      WrappedCursor(table, slots, regs, q);
      var rows :| Listed(rows, NamedRows(slots, regs, q)) && mem == Take(rows, limit);
      ListedEmpty(rows, {});
      var full :| Listed(full, SelectedRows(table, regs, q0)) && hits == Take(full, limit);
      FullRowsListed(full, table, slots, regs, q0);
      ListedEmpty(Rows(full), NamedRows(slots, regs, q0));
      RowsOfFirst(full, limit);
    }
  }

  /** In every reachable index: nothing has to be assumed of the records. */
  lemma ReachableListingsAgree(changes: seq<Change>, mem: seq<Row>, hits: seq<Hit>, table: Table, q: Query, limit: nat)
    requires Mirrors(table, IndexAfter(changes).slots)
    requires WindowFits(q) && CursorFits(q.after)
    requires FirstOf(mem, NamedRows(IndexAfter(changes).slots, IndexAfter(changes).registrations, q), limit)
    requires Answers(hits, table, IndexAfter(changes).registrations, q, limit)
    ensures mem == Rows(hits)
  {
    var x := IndexAfter(changes);
    ReachableRecordsAreCurrent(changes);
    ListingsAgree(mem, hits, table, x.slots, x.registrations, q, limit);
  }
}
