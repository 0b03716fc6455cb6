/**
 CATalog's way of writing the same tables: mark what the index names for each spent key, then save
 only the values that were created more often than they were spent. It agrees with XCHandles'
 save-then-mark walk. A CATalog slot is a slot value whose handle is its asset id.
 */
module CatalogTables {
  import opened Common
  import opened Registry
  import opened SlotChain
  import opened SlotTables

  function CountOf(vs: seq<SlotValue>, v: SlotValue): nat {
    if vs == [] then 0 else CountOf(vs[..|vs| - 1], v) + if vs[|vs| - 1] == v then 1 else 0
  }

  /** Rows of previously indexed values marked for every spent key the index knows. */
  function MarkedByIndex(rows: Rows, index: Live, spent: seq<SlotValue>, height: u32): Rows {
    if spent == [] then rows
    else
      var before := MarkedByIndex(rows, index, spent[..|spent| - 1], height);
      var h := spent[|spent| - 1].handle;
      if h in index then Marked(before, index[h], height) else before
  }

  /** Created values left after netting against spent ones, each once, in order of first creation. */
  function NetCreated(vs: seq<SlotValue>, created: seq<SlotValue>, spent: seq<SlotValue>): seq<SlotValue> {
    if vs == [] then []
    else
      var front, v := vs[..|vs| - 1], vs[|vs| - 1];
      if v in front || CountOf(spent, v) >= CountOf(created, v) then NetCreated(front, created, spent)
      else NetCreated(front, created, spent) + [v]
  }

  function AfterCatalogSpend(t: Tables, created: seq<SlotValue>, spent: seq<SlotValue>, height: u32,
                             parent: nat): Tables {
    SavedAll(Tables(MarkedByIndex(t.rows, t.index, spent, height), t.index),
             NetCreated(created, created, spent), parent)
  }

  method CountMatching(vs: seq<SlotValue>, v: SlotValue) returns (n: nat)
    ensures n == CountOf(vs, v)
  {
    n := 0;
    for i := 0 to |vs|
      invariant n == CountOf(vs[..i], v)
    {
      assert vs[..i + 1][..i] == vs[..i];
      if vs[i] == v {
        n := n + 1;
      }
    }
    assert vs[..|vs|] == vs;
  }

  method SyncCatalogSpend(db: SlotDb, created: seq<SlotValue>, spent: seq<SlotValue>, height: u32, parent: nat)
    modifies db
    ensures db.Value() == AfterCatalogSpend(old(db.Value()), created, spent, height, parent)
  {
    for i := 0 to |spent|
      invariant db.indexed == old(db.indexed)
      invariant db.slots == MarkedByIndex(old(db.slots), old(db.indexed), spent[..i], height)
    {
      assert spent[..i + 1][..i] == spent[..i];
      if spent[i].handle in db.indexed {
        db.MarkSlotAsSpent(db.indexed[spent[i].handle], height);
      }
    }
    assert spent[..|spent|] == spent;
    ghost var u := db.Value();
    var processed: set<SlotValue> := {};
    for i := 0 to |created|
      invariant processed == Elems(created[..i])
      invariant db.Value() == SavedAll(u, NetCreated(created[..i], created, spent), parent)
    {
      assert created[..i + 1][..i] == created[..i];
      assert created[..i + 1] == created[..i] + [created[i]];
      var v := created[i];
      if v in processed {
        continue;
      }
      processed := processed + {v};
      var noSpent := CountMatching(spent, v);
      var noCreated := CountMatching(created, v);
      if noSpent >= noCreated {
        continue;
      }
      SavedSnoc(u, NetCreated(created[..i], created, spent), v, parent);
      db.SaveIndexedSlotValue(v);
      db.SaveSlot(v, parent, 0);
    }
    assert created[..|created|] == created;
  }

  lemma SavedSnoc(t: Tables, vs: seq<SlotValue>, v: SlotValue, parent: nat)
    ensures SavedAll(t, vs + [v], parent) == Saved(SavedAll(t, vs, parent), v, parent)
  {
    assert (vs + [v])[..|vs|] == vs;
  }

  // ---------------------------------------------------------------------------------
  // Agreement with save-then-mark
  // ---------------------------------------------------------------------------------

  lemma {:induction false} CountIsMembership(vs: seq<SlotValue>, v: SlotValue)
    ensures CountOf(vs, v) > 0 <==> v in vs
    ensures NoDup(vs) ==> CountOf(vs, v) <= 1
  {
    if vs != [] {
      CountIsMembership(vs[..|vs| - 1], v);
      assert vs == vs[..|vs| - 1] + [vs[|vs| - 1]];
    }
  }

  /** With unique values, netting keeps exactly the created values that were not spent again. */
  lemma {:induction false} NetIsUnspent(vs: seq<SlotValue>, created: seq<SlotValue>, spent: seq<SlotValue>)
    requires NoDup(created) && vs <= created
    ensures Elems(NetCreated(vs, created, spent)) == Elems(vs) - Elems(spent)
  {
    if vs != [] {
      var front, v := vs[..|vs| - 1], vs[|vs| - 1];
      NetIsUnspent(front, created, spent);
      CountIsMembership(created, v);
      CountIsMembership(spent, v);
      assert v == created[|vs| - 1] && v in created;
      assert vs == front + [v];
      assert Elems(vs) == Elems(front) + {v};
      assert v !in front by {
        assert forall i :: 0 <= i < |front| ==> front[i] == created[i];
      }
      var net := NetCreated(front, created, spent);
      assert Elems(net + [v]) == Elems(net) + {v};
    }
  }

  lemma {:induction false} MarkedByIndexIs(rows: Rows, index: Live, spent: seq<SlotValue>, height: u32)
    requires height > 0
    ensures
      var out := MarkedByIndex(rows, index, spent, height);
      && out.Keys == rows.Keys
      && forall k :: k in rows ==>
           out[k] == (if rows[k] == 0 && (exists v :: v in spent && v.handle in index && index[v.handle] == k.value)
                      then height else rows[k])
  {
    if spent != [] {
      var front, x := spent[..|spent| - 1], spent[|spent| - 1];
      MarkedByIndexIs(rows, index, front, height);
      assert spent == front + [x];
      assert forall v :: v in spent <==> v in front || v == x;
    }
  }

  /** The values the index names for spent keys are exactly the spent values that were live. */
  lemma IndexNamesSpent(live: Live, made: set<SlotValue>, created: seq<SlotValue>, spent: seq<SlotValue>, live': Live,
                        w: SlotValue)
    requires CleanTransition(live, made, created, spent, live')
    requires forall h :: h in live ==> live[h].handle == h
    requires w in ValuesOf(live)
    ensures (exists v :: v in spent && v.handle in live && live[v.handle] == w) <==> w in spent
  {
    var h :| h in live && live[h] == w;
    if v :| v in spent && v.handle in live && live[v.handle] == w {
      if v != w {
        assert v in Elems(spent) && v in Elems(created);
        LastCreatedConcat([], created, v.handle);
        assert live'[v.handle] in Elems(created);
        assert w in made && live'[v.handle] != w;
        assert forall g :: g in live' && live'[g] == w ==> g == v.handle;
        assert w !in ValuesOf(live');
        assert w in Elems(spent);
      }
    }
  }

  ghost predicate SameUnspentRows(a: Rows, b: Rows) {
    forall k :: (k in a && a[k] == 0) <==> (k in b && b[k] == 0)
  }

  /**
   From tables exact for the live list, both programs write the same unspent rows and the same
   index for any transition, whatever chains of values it creates and spends again.
   */
  lemma CatalogAgrees(t: Tables, live: Live, made: set<SlotValue>, s: Spend, live': Live)
    requires Exact(t, live) && s.height > 0
    requires forall h :: h in live ==> live[h].handle == h
    requires CleanTransition(live, made, Created(s.logs), Spent(s.logs), live')
    ensures
      var a := AfterCatalogSpend(t, Created(s.logs), Spent(s.logs), s.height, s.parent);
      SameUnspentRows(a.rows, AfterSpend(t, s).rows) && a.index == AfterSpend(t, s).index
  {
    UnspentRowsAgree(t, live, made, s, live');
    IndexesAgree(t, live, made, s, live');
  }

  /** The same at every point of a history the puzzles allow. */
  lemma CatalogAgreesOnHistory(t: Tables, left: SlotValue, right: SlotValue, past: seq<Spend>, s: Spend)
    requires Launch(left, right) && ValidHistory(StartLive(left, right), past + [s])
    requires Exact(t, LiveAt(StartLive(left, right), past))
    ensures
      var a := AfterCatalogSpend(t, Created(s.logs), Spent(s.logs), s.height, s.parent);
      SameUnspentRows(a.rows, AfterSpend(t, s).rows) && a.index == AfterSpend(t, s).index
  {
    var start := StartLive(left, right);
    assert (past + [s])[..|past|] == past;
    HistoryIsSound(left, right, past);
    var live, made := LiveAt(start, past), MadeAt(start, past);
    LogsAreClean(live, made, s.logs, left.handle, right.handle);
    CatalogAgrees(t, live, made, s, AfterLogs(live, s.logs));
  }

  lemma UnspentRowsAgree(t: Tables, live: Live, made: set<SlotValue>, s: Spend, live': Live)
    requires Exact(t, live) && s.height > 0
    requires forall h :: h in live ==> live[h].handle == h
    requires CleanTransition(live, made, Created(s.logs), Spent(s.logs), live')
    ensures SameUnspentRows(AfterCatalogSpend(t, Created(s.logs), Spent(s.logs), s.height, s.parent).rows,
                           AfterSpend(t, s).rows)
  {
    var c, p := Created(s.logs), Spent(s.logs);
    var net := NetCreated(c, c, p);
    NetIsUnspent(c, c, p);
    var m := MarkedByIndex(t.rows, t.index, p, s.height);
    MarkedByIndexIs(t.rows, t.index, p, s.height);
    SavedAllIs(Tables(m, t.index), net, s.parent);
    var u := SavedAll(t, c, s.parent).rows;
    SavedAllIs(t, c, s.parent);
    MarkedAllIs(u, p, s.height);
    var a, b := AfterCatalogSpend(t, c, p, s.height, s.parent).rows, AfterSpend(t, s).rows;
    forall k ensures (k in a && a[k] == 0) <==> (k in b && b[k] == 0) {
      assert k.value in net <==> k.value in Elems(c) - Elems(p);
      if k in t.rows && t.rows[k] == 0 {
        assert k.value in Unspent(t.rows);
        IndexNamesSpent(live, made, c, p, live', k.value);
      }
    }
  }

  lemma IndexesAgree(t: Tables, live: Live, made: set<SlotValue>, s: Spend, live': Live)
    requires Exact(t, live)
    requires forall h :: h in live ==> live[h].handle == h
    requires CleanTransition(live, made, Created(s.logs), Spent(s.logs), live')
    ensures AfterCatalogSpend(t, Created(s.logs), Spent(s.logs), s.height, s.parent).index == AfterSpend(t, s).index
  {
    var c, p := Created(s.logs), Spent(s.logs);
    var net := NetCreated(c, c, p);
    NetIsUnspent(c, c, p);
    forall h ensures LastCreated(net, h) == LastCreated(c, h) {
      LastNet(live, made, c, p, live', net, h);
    }
    SameIndex(Tables(MarkedByIndex(t.rows, t.index, p, s.height), t.index), t, net, c, s.parent);
  }

  /** Saving writes the index only by the last value per handle. */
  lemma SameIndex(t: Tables, u: Tables, vs: seq<SlotValue>, ws: seq<SlotValue>, parent: nat)
    requires t.index == u.index && forall h :: LastCreated(vs, h) == LastCreated(ws, h)
    ensures SavedAll(t, vs, parent).index == SavedAll(u, ws, parent).index
  {
    SavedAllIs(t, vs, parent);
    SavedAllIs(u, ws, parent);
  }

  lemma LastNet(live: Live, made: set<SlotValue>, c: seq<SlotValue>, p: seq<SlotValue>, live': Live,
                net: seq<SlotValue>, h: Bytes32)
    requires CleanTransition(live, made, c, p, live') && Elems(net) == Elems(c) - Elems(p)
    ensures LastCreated(net, h) == LastCreated(c, h)
  {
    LastCreatedConcat([], net, h);
    LastCreatedConcat([], c, h);
    if LastCreated(net, h).Some? {
      var v := LastCreated(net, h).value;
      assert v in Elems(net) && v in Elems(c);
      assert v in ValuesOf(live');
      assert h in live' && live'[h] == v;
    }
    if LastCreated(c, h).Some? {
      var v := LastCreated(c, h).value;
      assert v in Elems(c) && h in live' && live'[h] == v;
      assert v in ValuesOf(live') && v !in Elems(p);
      assert v in Elems(net);
    }
  }
}
