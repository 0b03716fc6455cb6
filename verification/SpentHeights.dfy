/** At which height the slot tables mark each spent row, and so what pruning them removes. */
module SpentHeights {
  import opened Common
  import opened Registry
  import opened SlotChain
  import opened SlotTables
  import opened CatalogTables

  type Heights = map<SlotValue, u32>

  /** The height of the spend that spent each value of a history. */
  function HeightsAt(spends: seq<Spend>): Heights {
    if spends == [] then map[]
    else
      var s := spends[|spends| - 1];
      WithSpent(HeightsAt(spends[..|spends| - 1]), s)
  }

  function WithSpent(heights: Heights, s: Spend): Heights {
    heights + map v | v in Elems(Spent(s.logs)) :: s.height
  }

  /** Zero while a value is unspent. */
  function HeightOf(heights: Heights, v: SlotValue): u32 {
    if v in heights then heights[v] else 0
  }

  /** Every row of a value made so far holds the height that value was spent at. */
  ghost predicate HeightsHold(rows: Rows, made: set<SlotValue>, heights: Heights) {
    forall k :: k in rows && k.value in made ==> rows[k] == HeightOf(heights, k.value)
  }

  /** Each value is spent once, and what is made and not spent is live. */
  lemma {:induction false} SpentIsNotLive(left: SlotValue, right: SlotValue, spends: seq<Spend>)
    requires Launch(left, right) && ValidHistory(StartLive(left, right), spends)
    ensures
      var start := StartLive(left, right);
      HeightsAt(spends).Keys == MadeAt(start, spends) - ValuesOf(LiveAt(start, spends))
    ensures ValuesOf(LiveAt(StartLive(left, right), spends)) <= MadeAt(StartLive(left, right), spends)
    ensures spends != [] ==>
      Elems(Spent(spends[|spends| - 1].logs)) !! HeightsAt(spends[..|spends| - 1]).Keys
  {
    if spends != [] {
      var front, s := spends[..|spends| - 1], spends[|spends| - 1];
      SpentIsNotLive(left, right, front);
      NextSpendIsClean(left, right, front, s);
      var live := LiveAt(StartLive(left, right), front);
      SpentJoins(HeightsAt(front).Keys, MadeAt(StartLive(left, right), front), ValuesOf(live), Elems(Created(s.logs)),
                 Elems(Spent(s.logs)));
    }
  }

  lemma NextSpendIsClean(left: SlotValue, right: SlotValue, front: seq<Spend>, s: Spend)
    requires Launch(left, right) && ValidHistory(StartLive(left, right), front)
    requires ValidLogs(LiveAt(StartLive(left, right), front), s.logs)
    ensures
      var live, created, spent := LiveAt(StartLive(left, right), front), Elems(Created(s.logs)), Elems(Spent(s.logs));
      && created !! MadeAt(StartLive(left, right), front) && spent <= ValuesOf(live) + created
      && ValuesOf(AfterLogs(live, s.logs)) == ValuesOf(live) + created - spent
  {
    var live := LiveAt(StartLive(left, right), front);
    HistoryIsSound(left, right, front);
    LogsAreClean(live, MadeAt(StartLive(left, right), front), s.logs, left.handle, right.handle);
  }

  lemma SpentJoins(gone: set<SlotValue>, made: set<SlotValue>, live: set<SlotValue>, created: set<SlotValue>,
                   spent: set<SlotValue>)
    requires gone == made - live && live <= made && created !! made && spent <= live + created
    ensures gone + spent == (made + created) - (live + created - spent)
    ensures spent !! gone && live + created - spent <= made + created
  {
  }

  /** A value is spent in at most one spend of a history, and its height is the height of that spend. */
  lemma {:induction false} HeightIsOfSpend(left: SlotValue, right: SlotValue, spends: seq<Spend>, v: SlotValue, i: nat)
    requires Launch(left, right) && ValidHistory(StartLive(left, right), spends) && i < |spends|
    requires v in Spent(spends[i].logs)
    ensures v in HeightsAt(spends) && HeightsAt(spends)[v] == spends[i].height
  {
    var front, s := spends[..|spends| - 1], spends[|spends| - 1];
    assert v in Elems(Spent(spends[i].logs));
    if i < |front| {
      HeightIsOfSpend(left, right, front, v, i);
      SpentIsNotLive(left, right, spends);
    }
  }

  lemma {:induction false} HeightHasSpend(spends: seq<Spend>, v: SlotValue)
    requires v in HeightsAt(spends)
    ensures exists i :: 0 <= i < |spends| && v in Spent(spends[i].logs)
  {
    var front, s := spends[..|spends| - 1], spends[|spends| - 1];
    if v in Elems(Spent(s.logs)) {
      assert v in Spent(spends[|spends| - 1].logs);
    } else {
      HeightHasSpend(front, v);
      var i :| 0 <= i < |front| && v in Spent(front[i].logs);
      assert spends[i] == front[i];
    }
  }

  /** One spend marks exactly the values it spends, at its height. */
  lemma SpendHolds(t: Tables, s: Spend, made: set<SlotValue>, heights: Heights)
    requires s.height > 0 && HeightsHold(t.rows, made, heights)
    requires Elems(Created(s.logs)) !! made && heights.Keys <= made && Elems(Spent(s.logs)) !! heights.Keys
    requires forall k :: k in t.rows && k.value in Created(s.logs) ==> k.parent == s.parent
    ensures HeightsHold(AfterSpend(t, s).rows, made + Elems(Created(s.logs)), WithSpent(heights, s))
  {
    var saved := SavedAll(t, Created(s.logs), s.parent).rows;
    SavedAllIs(t, Created(s.logs), s.parent);
    MarkedAllIs(saved, Spent(s.logs), s.height);
    forall k | k in saved && k.value in made + Elems(Created(s.logs)) ensures saved[k] == HeightOf(heights, k.value) {
      if k.value in Created(s.logs) {
        assert k.value !in heights;
      }
    }
  }

  lemma WalkHoldsStep(u: Tables, left: SlotValue, right: SlotValue, front: seq<Spend>, s: Spend)
    requires Launch(left, right) && ValidHistory(StartLive(left, right), front + [s])
    requires HeightsHold(u.rows, MadeAt(StartLive(left, right), front), HeightsAt(front))
    requires forall k :: k in u.rows && k.value in Created(s.logs) ==> k.parent == s.parent
    ensures
      HeightsHold(AfterSpend(u, s).rows, MadeAt(StartLive(left, right), front + [s]), HeightsAt(front + [s]))
  {
    var start := StartLive(left, right);
    assert (front + [s])[..|front|] == front;
    SpentIsNotLive(left, right, front);
    SpentIsNotLive(left, right, front + [s]);
    NextSpendIsFresh(left, right, front, s);
    SpendHolds(u, s, MadeAt(start, front), HeightsAt(front));
  }

  ghost predicate HoldsAfter(t: Tables, left: SlotValue, right: SlotValue, spends: seq<Spend>) {
    HeightsHold(Walked(t, spends).rows, MadeAt(StartLive(left, right), spends), HeightsAt(spends))
  }

  /** Each created value of the spends has the coin of its spend as parent. */
  ghost predicate Under(parents: Parents, spends: seq<Spend>) {
    forall s :: s in spends ==> UnderSpend(parents, s)
  }

  ghost predicate UnderSpend(parents: Parents, s: Spend) {
    forall v :: v in Created(s.logs) ==> v in parents && parents[v] == s.parent
  }

  lemma {:induction false} HistoryIsUnder(left: SlotValue, right: SlotValue, parent: nat, spends: seq<Spend>)
    requires Launch(left, right) && ValidHistory(StartLive(left, right), spends)
    ensures Under(ParentsAt(StartLive(left, right), parent, spends), spends)
  {
    if spends != [] {
      var front, s := spends[..|spends| - 1], spends[|spends| - 1];
      assert spends == front + [s];
      HistoryIsUnder(left, right, parent, front);
      ParentsStable(left, right, parent, front, [s]);
      NewestIsUnder(StartLive(left, right), parent, spends);
      UnderExtends(ParentsAt(StartLive(left, right), parent, spends), ParentsAt(StartLive(left, right), parent, front),
                   front);
    }
  }

  lemma NewestIsUnder(start: Live, parent: nat, spends: seq<Spend>)
    requires spends != []
    ensures UnderSpend(ParentsAt(start, parent, spends), spends[|spends| - 1])
  {
    var s := spends[|spends| - 1];
    assert forall v :: v in Created(s.logs) ==> v in Elems(Created(s.logs));
  }

  lemma UnderExtends(late: Parents, early: Parents, spends: seq<Spend>)
    requires Extends(late, early) && Under(early, spends)
    ensures Under(late, spends)
  {
    forall s | s in spends ensures UnderSpend(late, s) {
      assert UnderSpend(early, s);
    }
  }

  /** Walking a history over rows of its own leaves the heights of every value made. */
  lemma {:induction false} WalkHolds(t: Tables, left: SlotValue, right: SlotValue, parents: Parents, spends: seq<Spend>)
    requires Launch(left, right) && ValidHistory(StartLive(left, right), spends)
    requires Parented(t.rows, parents) && Under(parents, spends) && HoldsAfter(t, left, right, [])
    ensures HoldsAfter(t, left, right, spends) && Parented(Walked(t, spends).rows, parents)
  {
    if spends != [] {
      var front, s := spends[..|spends| - 1], spends[|spends| - 1];
      WalkHolds(t, left, right, parents, front);
      assert UnderSpend(parents, s);
      SpendParented(Walked(t, front), s, parents);
      WalkHoldsNext(t, left, right, parents, spends);
    }
  }

  lemma WalkHoldsNext(t: Tables, left: SlotValue, right: SlotValue, parents: Parents, spends: seq<Spend>)
    requires spends != [] && Launch(left, right) && ValidHistory(StartLive(left, right), spends)
    requires var front := spends[..|spends| - 1];
      HoldsAfter(t, left, right, front) && Parented(Walked(t, front).rows, parents)
    requires UnderSpend(parents, spends[|spends| - 1])
    ensures HoldsAfter(t, left, right, spends)
  {
    var front, s := spends[..|spends| - 1], spends[|spends| - 1];
    assert front + [s] == spends;
    WalkHoldsStep(Walked(t, front), left, right, front, s);
  }

  lemma SpendParented(t: Tables, s: Spend, parents: Parents)
    requires Parented(t.rows, parents) && UnderSpend(parents, s)
    ensures Parented(AfterSpend(t, s).rows, parents)
  {
    SavedParented(t, Created(s.logs), s.parent, parents);
    MarkedParented(SavedAll(t, Created(s.logs), s.parent).rows, Spent(s.logs), s.height, parents);
  }

  /** The rows of a history: one for each value ever made, under the coin that made it, at the height it was spent. */
  ghost predicate RowsAre(rows: Rows, made: set<SlotValue>, parents: Parents, heights: Heights) {
    forall v :: v in made ==>
      && v in parents && RowKey(v, parents[v]) in rows
      && rows[RowKey(v, parents[v])] == HeightOf(heights, v)
  }

  lemma SpendKeepsRows(t: Tables, s: Spend)
    ensures RowValues(AfterSpend(t, s).rows) == RowValues(t.rows) + Elems(Created(s.logs))
  {
    SavedUnspent(t, Created(s.logs), s.parent);
    MarkedKeys(SavedAll(t, Created(s.logs), s.parent).rows, Spent(s.logs), s.height);
  }

  lemma {:induction false} MarkedKeys(rows: Rows, vs: seq<SlotValue>, height: u32)
    ensures MarkedAll(rows, vs, height).Keys == rows.Keys
  {
    if vs != [] {
      MarkedKeys(rows, vs[..|vs| - 1], height);
    }
  }

  lemma {:induction false} MadeHasRows(start: Live, t: Tables, spends: seq<Spend>)
    requires ValuesOf(start) <= RowValues(t.rows)
    ensures MadeAt(start, spends) <= RowValues(Walked(t, spends).rows)
  {
    if spends != [] {
      MadeHasRows(start, t, spends[..|spends| - 1]);
      SpendKeepsRows(Walked(t, spends[..|spends| - 1]), spends[|spends| - 1]);
    }
  }

  /** After a cold walk each value made has its row, at the height of the spend that spent it, or zero while live. */
  lemma ColdWalkHeights(t: Tables, left: SlotValue, right: SlotValue, parent: nat, spends: seq<Spend>)
    requires Launch(left, right) && ValidHistory(StartLive(left, right), spends)
    requires Parented(t.rows, ParentsAt(StartLive(left, right), parent, spends))
    ensures
      var start := StartLive(left, right);
      var rows := Walked(SavedAll(t, [left, right], parent), spends).rows;
      && RowsAre(rows, MadeAt(start, spends), ParentsAt(start, parent, spends), HeightsAt(spends))
      && Parented(rows, ParentsAt(start, parent, spends))
  {
    var start, u := StartLive(left, right), SavedAll(t, [left, right], parent);
    var parents := ParentsAt(start, parent, spends);
    assert [] + spends == spends;
    LaunchIsChain(left, right);
    ParentsStable(left, right, parent, [], spends);
    SavedParented(t, [left, right], parent, parents);
    LaunchRows(t, left, right, parent, parents);
    HistoryIsUnder(left, right, parent, spends);
    WalkHolds(u, left, right, parents, spends);
    MadeHasRows(start, u, spends);
    ParentsKnown(start, parent, spends);
    RowsFromHeights(Walked(u, spends).rows, MadeAt(start, spends), parents, HeightsAt(spends));
  }

  lemma LaunchRows(t: Tables, left: SlotValue, right: SlotValue, parent: nat, parents: Parents)
    requires Launch(left, right) && Parented(t.rows, parents)
    requires left in parents && parents[left] == parent && right in parents && parents[right] == parent
    ensures
      var u := SavedAll(t, [left, right], parent);
      && HeightsHold(u.rows, ValuesOf(StartLive(left, right)), map[])
      && ValuesOf(StartLive(left, right)) <= RowValues(u.rows)
  {
    LaunchIsChain(left, right);
    SavedAllIs(t, [left, right], parent);
    SavedUnspent(t, [left, right], parent);
  }

  lemma RowsFromHeights(rows: Rows, made: set<SlotValue>, parents: Parents, heights: Heights)
    requires HeightsHold(rows, made, heights) && Parented(rows, parents) && made <= RowValues(rows)
    ensures RowsAre(rows, made, parents, heights)
  {
    forall v | v in made ensures v in parents && RowKey(v, parents[v]) in rows
                           && rows[RowKey(v, parents[v])] == HeightOf(heights, v) {
      assert v in RowValues(rows);
      var k :| k in rows && k.value == v;
      assert k == RowKey(v, parents[v]);
    }
  }

  lemma {:induction false} HeightsArePositive(start: Live, spends: seq<Spend>)
    requires ValidHistory(start, spends)
    ensures forall v :: v in HeightsAt(spends) ==> HeightsAt(spends)[v] > 0
  {
    if spends != [] {
      HeightsArePositive(start, spends[..|spends| - 1]);
    }
  }

  /**
   After a cold walk, pruning at a threshold removes exactly the rows of values some spend below it spent; the row of
   a live value stays.
   */
  lemma PruneRemovesIff(t: Tables, left: SlotValue, right: SlotValue, parent: nat, spends: seq<Spend>, threshold: u32,
                        v: SlotValue)
    requires Launch(left, right) && ValidHistory(StartLive(left, right), spends)
    requires Parented(t.rows, ParentsAt(StartLive(left, right), parent, spends))
    requires v in MadeAt(StartLive(left, right), spends)
    ensures
      var rows := Walked(SavedAll(t, [left, right], parent), spends).rows;
      (exists k :: k in WithoutOld(rows, threshold) && k.value == v)
        <==> !(exists i :: 0 <= i < |spends| && v in Spent(spends[i].logs) && spends[i].height < threshold)
  {
    var start := StartLive(left, right);
    var rows, parents := Walked(SavedAll(t, [left, right], parent), spends).rows, ParentsAt(start, parent, spends);
    ColdWalkHeights(t, left, right, parent, spends);
    HeightsArePositive(start, spends);
    var k := RowKey(v, parents[v]);
    assert k in rows && rows[k] == HeightOf(HeightsAt(spends), v);
    assert forall q :: q in rows && q.value == v ==> q == k;
    forall i | 0 <= i < |spends| && v in Spent(spends[i].logs) ensures rows[k] == spends[i].height > 0 {
      HeightIsOfSpend(left, right, spends, v, i);
    }
    if v in HeightsAt(spends) {
      HeightHasSpend(spends, v);
    }
  }

  /** CATalog's loops mark at the same heights. */
  lemma CatalogHolds(t: Tables, live: Live, made: set<SlotValue>, heights: Heights, s: Spend, live': Live)
    requires Exact(t, live) && s.height > 0 && HeightsHold(t.rows, made, heights) && RowValues(t.rows) <= made
    requires forall h :: h in live ==> live[h].handle == h
    requires CleanTransition(live, made, Created(s.logs), Spent(s.logs), live')
    requires heights.Keys == made - ValuesOf(live)
    ensures HeightsHold(AfterCatalogSpend(t, Created(s.logs), Spent(s.logs), s.height, s.parent).rows,
                        made + Elems(Created(s.logs)), WithSpent(heights, s))
  {
    var c, p := Created(s.logs), Spent(s.logs);
    var m, net := MarkedByIndex(t.rows, t.index, p, s.height), NetCreated(c, c, p);
    MarkedHolds(t, live, made, heights, s, live');
    NetIsUnspent(c, c, p);
    SavedAllIs(Tables(m, t.index), net, s.parent);
    var a := AfterCatalogSpend(t, c, p, s.height, s.parent).rows;
    forall k | k in a && k.value in made + Elems(c) ensures a[k] == HeightOf(WithSpent(heights, s), k.value) {
      assert k.value in net <==> k.value in Elems(c) - Elems(p);
      if k.value in net {
        assert k.value !in RowValues(t.rows);
        assert k !in t.rows;
      } else {
        assert k in m && k.value in RowValues(t.rows);
      }
    }
  }

  lemma MarkedHolds(t: Tables, live: Live, made: set<SlotValue>, heights: Heights, s: Spend, live': Live)
    requires Exact(t, live) && s.height > 0 && HeightsHold(t.rows, made, heights) && RowValues(t.rows) <= made
    requires forall h :: h in live ==> live[h].handle == h
    requires CleanTransition(live, made, Created(s.logs), Spent(s.logs), live')
    requires heights.Keys == made - ValuesOf(live)
    ensures
      var m := MarkedByIndex(t.rows, t.index, Spent(s.logs), s.height);
      m.Keys == t.rows.Keys && forall k :: k in m ==> m[k] == HeightOf(WithSpent(heights, s), k.value)
  {
    var p := Spent(s.logs);
    var m := MarkedByIndex(t.rows, t.index, p, s.height);
    MarkedByIndexIs(t.rows, t.index, p, s.height);
    forall k | k in m ensures m[k] == HeightOf(WithSpent(heights, s), k.value) {
      assert k.value in RowValues(t.rows);
      if t.rows[k] == 0 {
        assert k.value in Unspent(t.rows);
        IndexNamesSpent(live, made, Created(s.logs), p, live', k.value);
      } else {
        assert k.value !in Elems(p);
      }
    }
  }

  function CatalogWalked(t: Tables, spends: seq<Spend>): Tables {
    if spends == [] then t
    else
      var s := spends[|spends| - 1];
      AfterCatalogSpend(CatalogWalked(t, spends[..|spends| - 1]), Created(s.logs), Spent(s.logs), s.height, s.parent)
  }

  /** Tables exact for a history, with rows of its values only, each at the height its value was spent. */
  ghost predicate ExactWithHeights(t: Tables, start: Live, spends: seq<Spend>) {
    && Exact(t, LiveAt(start, spends)) && RowValues(t.rows) <= MadeAt(start, spends)
    && HeightsHold(t.rows, MadeAt(start, spends), HeightsAt(spends))
  }

  /** CATalog's walk over any history: exact tables, and every spent row at the height of the spend that spent it. */
  lemma {:induction false} CatalogWalkHeights(t: Tables, left: SlotValue, right: SlotValue, spends: seq<Spend>)
    requires Launch(left, right) && ValidHistory(StartLive(left, right), spends)
    requires ExactWithHeights(t, StartLive(left, right), [])
    ensures ExactWithHeights(CatalogWalked(t, spends), StartLive(left, right), spends)
  {
    if spends != [] {
      var front, s := spends[..|spends| - 1], spends[|spends| - 1];
      CatalogWalkHeights(t, left, right, front);
      assert front + [s] == spends;
      CatalogStepExact(CatalogWalked(t, front), left, right, front, s);
      CatalogStepHeights(CatalogWalked(t, front), left, right, front, s);
    }
  }

  lemma CatalogStepExact(t: Tables, left: SlotValue, right: SlotValue, front: seq<Spend>, s: Spend)
    requires Launch(left, right) && ValidHistory(StartLive(left, right), front + [s])
    requires Exact(t, LiveAt(StartLive(left, right), front))
    requires RowValues(t.rows) <= MadeAt(StartLive(left, right), front)
    ensures
      var a := AfterCatalogSpend(t, Created(s.logs), Spent(s.logs), s.height, s.parent);
      && Exact(a, LiveAt(StartLive(left, right), front + [s]))
      && RowValues(a.rows) <= MadeAt(StartLive(left, right), front + [s])
  {
    var start := StartLive(left, right);
    assert (front + [s])[..|front|] == front;
    ResumedWalkIsExact(t, left, right, front, [s]);
    assert Walked(t, [s]) == AfterSpend(t, s) by {
      WalkedNext(t, [], s);
      assert [] + [s] == [s];
    }
    CatalogAgreesOnHistory(t, left, right, front, s);
    var a := AfterCatalogSpend(t, Created(s.logs), Spent(s.logs), s.height, s.parent);
    SameUnspent(a.rows, AfterSpend(t, s).rows);
    CatalogRowValues(t, s);
  }

  lemma WalkedNext(t: Tables, front: seq<Spend>, s: Spend)
    ensures Walked(t, front + [s]) == AfterSpend(Walked(t, front), s)
  {
    assert (front + [s])[..|front|] == front;
  }

  lemma SameUnspent(a: Rows, b: Rows)
    requires SameUnspentRows(a, b)
    ensures Unspent(a) == Unspent(b)
  {
    forall v | v in Unspent(a) ensures v in Unspent(b) {
      var k :| k in a && a[k] == 0 && k.value == v;
      assert k in b && b[k] == 0;
    }
    forall v | v in Unspent(b) ensures v in Unspent(a) {
      var k :| k in b && b[k] == 0 && k.value == v;
      assert k in a && a[k] == 0;
    }
  }

  lemma CatalogRowValues(t: Tables, s: Spend)
    requires s.height > 0
    ensures RowValues(AfterCatalogSpend(t, Created(s.logs), Spent(s.logs), s.height, s.parent).rows)
              <= RowValues(t.rows) + Elems(Created(s.logs))
  {
    var c, p := Created(s.logs), Spent(s.logs);
    var m := MarkedByIndex(t.rows, t.index, p, s.height);
    MarkedByIndexIs(t.rows, t.index, p, s.height);
    SavedUnspent(Tables(m, t.index), NetCreated(c, c, p), s.parent);
    NetAmong(c, c, p);
    assert RowValues(m) == RowValues(t.rows) by {
      forall v | v in RowValues(t.rows) ensures v in RowValues(m) {
        var k :| k in t.rows && k.value == v;
        assert k in m;
      }
    }
  }

  lemma {:induction false} NetAmong(vs: seq<SlotValue>, created: seq<SlotValue>, spent: seq<SlotValue>)
    ensures Elems(NetCreated(vs, created, spent)) <= Elems(vs)
  {
    if vs != [] {
      NetAmong(vs[..|vs| - 1], created, spent);
      assert Elems(vs[..|vs| - 1]) <= Elems(vs) && vs[|vs| - 1] in Elems(vs);
    }
  }

  lemma CatalogStepHeights(t: Tables, left: SlotValue, right: SlotValue, front: seq<Spend>, s: Spend)
    requires Launch(left, right) && ValidHistory(StartLive(left, right), front + [s])
    requires ExactWithHeights(t, StartLive(left, right), front)
    ensures HeightsHold(AfterCatalogSpend(t, Created(s.logs), Spent(s.logs), s.height, s.parent).rows,
                        MadeAt(StartLive(left, right), front + [s]), HeightsAt(front + [s]))
  {
    var start := StartLive(left, right);
    assert (front + [s])[..|front|] == front;
    HistoryIsSound(left, right, front);
    var live, made := LiveAt(start, front), MadeAt(start, front);
    LogsAreClean(live, made, s.logs, left.handle, right.handle);
    SpentIsNotLive(left, right, front);
    CatalogHolds(t, live, made, HeightsAt(front), s, AfterLogs(live, s.logs));
  }
}
