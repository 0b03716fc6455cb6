/**
 The database tables of Handle slots and the walk that fills them from registry spends.

 A row is keyed by the slot value and the coin its proof descends from; it carries the height at
 which the slot was spent, or zero. The index maps a handle to the value last saved for it.
 */
module SlotTables {
  import opened Common
  import opened Registry
  import opened SlotChain

  datatype RowKey = RowKey(value: SlotValue, parent: nat)

  type Rows = map<RowKey, u32>

  datatype Tables = Tables(rows: Rows, index: Live)

  /** One spent registry coin: the height of the spend, its logs, and the coin created slots descend from. */
  datatype Spend = Spend(height: u32, logs: seq<ActionLog>, parent: nat)

  function Marked(rows: Rows, v: SlotValue, height: u32): Rows {
    map k | k in rows :: if k.value == v && rows[k] == 0 then height else rows[k]
  }

  function MarkedAll(rows: Rows, vs: seq<SlotValue>, height: u32): Rows {
    if vs == [] then rows else Marked(MarkedAll(rows, vs[..|vs| - 1], height), vs[|vs| - 1], height)
  }

  function Saved(t: Tables, v: SlotValue, parent: nat): Tables {
    Tables(t.rows[RowKey(v, parent) := 0], t.index[v.handle := v])
  }

  function SavedAll(t: Tables, vs: seq<SlotValue>, parent: nat): Tables {
    if vs == [] then t else Saved(SavedAll(t, vs[..|vs| - 1], parent), vs[|vs| - 1], parent)
  }

  /** Created slots are written first, spent ones marked afterwards. */
  function AfterSpend(t: Tables, s: Spend): Tables {
    var u := SavedAll(t, Created(s.logs), s.parent);
    Tables(MarkedAll(u.rows, Spent(s.logs), s.height), u.index)
  }

  function Walked(t: Tables, spends: seq<Spend>): Tables {
    if spends == [] then t else AfterSpend(Walked(t, spends[..|spends| - 1]), spends[|spends| - 1])
  }

  function WithoutOld(rows: Rows, threshold: u32): Rows {
    map k | k in rows && !(0 < rows[k] < threshold) :: rows[k]
  }

  class SlotDb {
    var slots: Rows
    var indexed: Live

    function Value(): Tables
      reads this
    {
      Tables(slots, indexed)
    }

    constructor ()
      ensures Value() == Tables(map[], map[])
    {
      slots, indexed := map[], map[];
    }

    method SaveSlot(v: SlotValue, parent: nat, spentHeight: u32)
      modifies this`slots
      ensures slots == old(slots)[RowKey(v, parent) := spentHeight]
    {
      slots := slots[RowKey(v, parent) := spentHeight];
    }

    method SaveIndexedSlotValue(v: SlotValue)
      modifies this`indexed
      ensures indexed == old(indexed)[v.handle := v]
    {
      indexed := indexed[v.handle := v];
    }

    method MarkSlotAsSpent(v: SlotValue, height: u32)
      modifies this`slots
      ensures slots == Marked(old(slots), v, height)
      ensures slots.Keys == old(slots).Keys
      ensures forall k :: k in slots && slots[k] != old(slots)[k] ==>
        k.value == v && old(slots)[k] == 0 && slots[k] == height
      ensures height > 0 ==> Unspent(slots) == Unspent(old(slots)) - {v}
    {
      MarkingUnspends(slots, v, height);
      slots := map k | k in slots :: if k.value == v && slots[k] == 0 then height else slots[k];
    }

    method DeleteSlotsSpentBefore(threshold: u32)
      modifies this`slots
      ensures slots == WithoutOld(old(slots), threshold)
      ensures forall k :: k in old(slots) && k !in slots <==> k in old(slots) && 0 < old(slots)[k] < threshold
      ensures forall k :: k in slots ==> k in old(slots) && slots[k] == old(slots)[k]
    {
      slots := map k | k in slots && !(0 < slots[k] < threshold) :: slots[k];
    }

    /** A cold start writes the two slots the registry was launched with. */
    method SaveInitialSlots(left: SlotValue, right: SlotValue, parent: nat)
      modifies this
      ensures Value() == SavedAll(old(Value()), [left, right], parent)
    {
      assert [left, right][..1] == [left] && [left][..0] == [];
      SaveSlot(left, parent, 0);
      SaveIndexedSlotValue(left);
      assert Value() == SavedAll(old(Value()), [left], parent);
      SaveSlot(right, parent, 0);
      SaveIndexedSlotValue(right);
    }

    method SyncSpend(s: Spend)
      modifies this
      ensures Value() == AfterSpend(old(Value()), s)
    {
      SaveCreated(Created(s.logs), s.parent);
      MarkSpent(Spent(s.logs), s.height);
    }

    method SaveCreated(created: seq<SlotValue>, parent: nat)
      modifies this
      ensures Value() == SavedAll(old(Value()), created, parent)
    {
      for i := 0 to |created|
        invariant Value() == SavedAll(old(Value()), created[..i], parent)
      {
        assert created[..i + 1][..i] == created[..i];
        SaveIndexedSlotValue(created[i]);
        SaveSlot(created[i], parent, 0);
      }
      assert created[..|created|] == created;
    }

    method MarkSpent(spent: seq<SlotValue>, height: u32)
      modifies this
      ensures Value() == Tables(MarkedAll(old(Value()).rows, spent, height), old(Value()).index)
    {
      for i := 0 to |spent|
        invariant Value() == Tables(MarkedAll(old(Value()).rows, spent[..i], height), old(Value()).index)
      {
        assert spent[..i + 1][..i] == spent[..i];
        MarkSlotAsSpent(spent[i], height);
      }
      assert spent[..|spent|] == spent;
    }

    method Walk(spends: seq<Spend>)
      modifies this
      ensures Value() == Walked(old(Value()), spends)
    {
      for i := 0 to |spends|
        invariant Value() == Walked(old(Value()), spends[..i])
      {
        assert spends[..i + 1][..i] == spends[..i];
        SyncSpend(spends[i]);
      }
      assert spends[..|spends|] == spends;
    }
  }

  // ---------------------------------------------------------------------------------
  // What one spend does to the unspent rows
  // ---------------------------------------------------------------------------------

  function Unspent(rows: Rows): set<SlotValue> {
    set k | k in rows && rows[k] == 0 :: k.value
  }

  function RowValues(rows: Rows): set<SlotValue> {
    set k | k in rows :: k.value
  }

  lemma {:induction false} SavedAllIs(t: Tables, vs: seq<SlotValue>, parent: nat)
    ensures
      var u := SavedAll(t, vs, parent);
      && (forall k :: k in u.rows <==> k in t.rows || (k.parent == parent && k.value in vs))
      && (forall k :: k in u.rows ==> u.rows[k] == if k.parent == parent && k.value in vs then 0 else t.rows[k])
      && (forall h :: h in u.index <==> h in t.index || LastCreated(vs, h).Some?)
      && (forall h :: h in u.index ==>
            u.index[h] == if LastCreated(vs, h).Some? then LastCreated(vs, h).value else t.index[h])
  {
    if vs != [] {
      SavedAllIs(t, vs[..|vs| - 1], parent);
      assert vs == vs[..|vs| - 1] + [vs[|vs| - 1]];
    }
  }

  /** Marking a value leaves every other value unspent or not, as it was. */
  lemma MarkingUnspends(rows: Rows, v: SlotValue, height: u32)
    ensures height > 0 ==> Unspent(Marked(rows, v, height)) == Unspent(rows) - {v}
  {
    if height > 0 {
      forall w | w in Unspent(rows) - {v} ensures w in Unspent(Marked(rows, v, height)) {
        var k :| k in rows && rows[k] == 0 && k.value == w;
        assert Marked(rows, v, height)[k] == 0;
      }
    }
  }

  lemma {:induction false} MarkedAllIs(rows: Rows, vs: seq<SlotValue>, height: u32)
    requires height > 0
    ensures
      var out := MarkedAll(rows, vs, height);
      && out.Keys == rows.Keys
      && forall k :: k in rows ==> out[k] == if rows[k] == 0 && k.value in vs then height else rows[k]
  {
    if vs != [] {
      MarkedAllIs(rows, vs[..|vs| - 1], height);
      assert vs == vs[..|vs| - 1] + [vs[|vs| - 1]];
    }
  }

  lemma SavedUnspent(t: Tables, vs: seq<SlotValue>, parent: nat)
    ensures Unspent(SavedAll(t, vs, parent).rows) == Unspent(t.rows) + Elems(vs)
    ensures RowValues(SavedAll(t, vs, parent).rows) == RowValues(t.rows) + Elems(vs)
  {
    SavedAllIs(t, vs, parent);
    var rows := SavedAll(t, vs, parent).rows;
    forall v | v in Elems(vs) ensures v in Unspent(rows) && v in RowValues(rows) {
      assert RowKey(v, parent) in rows && rows[RowKey(v, parent)] == 0;
    }
    forall v | v in Unspent(t.rows) ensures v in Unspent(rows) {
      var k :| k in t.rows && t.rows[k] == 0 && k.value == v;
      assert k in rows && rows[k] == 0;
    }
    forall v | v in RowValues(t.rows) ensures v in RowValues(rows) {
      var k :| k in t.rows && k.value == v;
      assert k in rows;
    }
  }

  lemma MarkedUnspent(rows: Rows, vs: seq<SlotValue>, height: u32)
    requires height > 0
    ensures Unspent(MarkedAll(rows, vs, height)) == Unspent(rows) - Elems(vs)
    ensures RowValues(MarkedAll(rows, vs, height)) == RowValues(rows)
  {
    MarkedAllIs(rows, vs, height);
    var out := MarkedAll(rows, vs, height);
    forall v | v in Unspent(rows) - Elems(vs) ensures v in Unspent(out) {
      var k :| k in rows && rows[k] == 0 && k.value == v;
      assert out[k] == 0;
    }
    forall v | v in RowValues(rows) ensures v in RowValues(out) {
      var k :| k in rows && k.value == v;
      assert k in out;
    }
  }

  /** Among values made so far, exactly the live ones have an unspent row, and the index finds them. */
  ghost predicate Shows(t: Tables, made: set<SlotValue>, live: Live) {
    && Unspent(t.rows) * made == ValuesOf(live)
    && forall h :: h in live ==> h in t.index && t.index[h] == live[h]
  }

  lemma SpendShows(t: Tables, s: Spend, made: set<SlotValue>, live: Live, live': Live)
    requires Shows(t, made, live) && s.height > 0
    requires CleanTransition(live, made, Created(s.logs), Spent(s.logs), live')
    ensures Shows(AfterSpend(t, s), made + Elems(Created(s.logs)), live')
    ensures RowValues(AfterSpend(t, s).rows) == RowValues(t.rows) + Elems(Created(s.logs))
    ensures AfterSpend(t, s).index.Keys <= t.index.Keys + live'.Keys
  {
    SpendRows(t, s);
    SpendIndex(t, Created(s.logs), s.parent, live, live');
    UnspentAmongMade(Unspent(t.rows), made, ValuesOf(live), Elems(Created(s.logs)), Elems(Spent(s.logs)));
  }

  lemma SpendRows(t: Tables, s: Spend)
    requires s.height > 0
    ensures Unspent(AfterSpend(t, s).rows) == Unspent(t.rows) + Elems(Created(s.logs)) - Elems(Spent(s.logs))
    ensures RowValues(AfterSpend(t, s).rows) == RowValues(t.rows) + Elems(Created(s.logs))
  {
    SavedUnspent(t, Created(s.logs), s.parent);
    MarkedUnspent(SavedAll(t, Created(s.logs), s.parent).rows, Spent(s.logs), s.height);
  }

  lemma UnspentAmongMade(rows: set<SlotValue>, made: set<SlotValue>, live: set<SlotValue>, created: set<SlotValue>,
                         spent: set<SlotValue>)
    requires rows * made == live && created !! made && spent <= live + created
    ensures (rows + created - spent) * (made + created) == live + created - spent
  {
  }

  lemma SpendIndex(t: Tables, c: seq<SlotValue>, parent: nat, live: Live, live': Live)
    requires forall h :: h in live ==> h in t.index && t.index[h] == live[h]
    requires LastWins(live, c, live') && forall v :: v in c ==> v.handle in live'
    ensures
      var u := SavedAll(t, c, parent);
      && (forall h :: h in live' ==> h in u.index && u.index[h] == live'[h])
      && u.index.Keys <= t.index.Keys + live'.Keys
  {
    var u := SavedAll(t, c, parent);
    SavedAllIs(t, c, parent);
    forall h | h in live' ensures h in u.index && u.index[h] == live'[h] {
      assert LastCreated(c, h).None? ==> h in live;
    }
    forall h | h in u.index ensures h in t.index.Keys + live'.Keys {
      if LastCreated(c, h).Some? {
        LastCreatedConcat([], c, h);
      }
    }
  }

  // ---------------------------------------------------------------------------------
  // Whole histories
  // ---------------------------------------------------------------------------------

  function LiveAt(start: Live, spends: seq<Spend>): Live {
    if spends == [] then start else AfterLogs(LiveAt(start, spends[..|spends| - 1]), spends[|spends| - 1].logs)
  }

  function MadeAt(start: Live, spends: seq<Spend>): set<SlotValue> {
    if spends == [] then ValuesOf(start)
    else MadeAt(start, spends[..|spends| - 1]) + Elems(Created(spends[|spends| - 1].logs))
  }

  predicate ValidHistory(start: Live, spends: seq<Spend>) {
    spends == [] ||
    (var front := spends[..|spends| - 1];
     ValidHistory(start, front) && spends[|spends| - 1].height > 0
     && ValidLogs(LiveAt(start, front), spends[|spends| - 1].logs))
  }

  /** The registry's launch state: two end slots naming each other. */
  ghost predicate Launch(left: SlotValue, right: SlotValue) {
    left.handle < right.handle && left.right == right.handle && right.left == left.handle
  }

  function StartLive(left: SlotValue, right: SlotValue): Live {
    map[left.handle := left, right.handle := right]
  }

  lemma LaunchIsChain(left: SlotValue, right: SlotValue)
    requires Launch(left, right)
    ensures Chain(StartLive(left, right), left.handle, right.handle)
    ensures Counted(StartLive(left, right), ValuesOf(StartLive(left, right)))
    ensures ValuesOf(StartLive(left, right)) == {left, right}
  {
    var live := StartLive(left, right);
    assert live[left.handle] == left && live[right.handle] == right;
  }

  lemma {:induction false} HistoryIsSound(left: SlotValue, right: SlotValue, spends: seq<Spend>)
    requires Launch(left, right) && ValidHistory(StartLive(left, right), spends)
    ensures Chain(LiveAt(StartLive(left, right), spends), left.handle, right.handle)
    ensures Counted(LiveAt(StartLive(left, right), spends), MadeAt(StartLive(left, right), spends))
  {
    var start := StartLive(left, right);
    if spends == [] {
      LaunchIsChain(left, right);
    } else {
      var front, s := spends[..|spends| - 1], spends[|spends| - 1];
      HistoryIsSound(left, right, front);
      LogsKeepChain(LiveAt(start, front), s.logs, left.handle, right.handle);
      LogsAreClean(LiveAt(start, front), MadeAt(start, front), s.logs, left.handle, right.handle);
    }
  }

  /** Tables `u`, walked from `t`, show a history and hold no more than it made. */
  ghost predicate WalkedTo(t: Tables, u: Tables, start: Live, spends: seq<Spend>) {
    && Shows(u, MadeAt(start, spends), LiveAt(start, spends))
    && RowValues(u.rows) <= RowValues(t.rows) + MadeAt(start, spends)
    && u.index.Keys <= t.index.Keys + LiveAt(start, spends).Keys
  }

  lemma WalkStep(t: Tables, u: Tables, left: SlotValue, right: SlotValue, spends: seq<Spend>, s: Spend)
    requires Launch(left, right) && ValidHistory(StartLive(left, right), spends + [s])
    requires WalkedTo(t, u, StartLive(left, right), spends)
    ensures WalkedTo(t, AfterSpend(u, s), StartLive(left, right), spends + [s])
  {
    var start := StartLive(left, right);
    assert (spends + [s])[..|spends|] == spends;
    HistoryIsSound(left, right, spends);
    var live, made := LiveAt(start, spends), MadeAt(start, spends);
    LogsAreClean(live, made, s.logs, left.handle, right.handle);
    SpendShows(u, s, made, live, AfterLogs(live, s.logs));
  }

  lemma SplitLast(past: seq<Spend>, spends: seq<Spend>)
    requires spends != []
    ensures past + spends == (past + spends[..|spends| - 1]) + [spends[|spends| - 1]]
    ensures (past + spends)[..|past + spends| - 1] == past + spends[..|spends| - 1]
  {
  }

  lemma HistoryPrefix(start: Live, spends: seq<Spend>, front: seq<Spend>)
    requires spends != [] && ValidHistory(start, spends) && front == spends[..|spends| - 1]
    ensures ValidHistory(start, front)
  {
  }

  /** A walk over tables that show a history shows the longer history. */
  lemma {:induction false} WalkShows(t: Tables, left: SlotValue, right: SlotValue, past: seq<Spend>, spends: seq<Spend>)
    requires Launch(left, right) && ValidHistory(StartLive(left, right), past + spends)
    requires Shows(t, MadeAt(StartLive(left, right), past), LiveAt(StartLive(left, right), past))
    ensures WalkedTo(t, Walked(t, spends), StartLive(left, right), past + spends)
    decreases |spends|
  {
    if spends == [] {
      assert past + spends == past;
    } else {
      var front, s := spends[..|spends| - 1], spends[|spends| - 1];
      SplitLast(past, spends);
      HistoryPrefix(StartLive(left, right), past + spends, past + front);
      WalkShows(t, left, right, past, front);
      WalkStep(t, Walked(t, front), left, right, past + front, s);
    }
  }

  /** The unspent rows are exactly the live slots, and the index is exactly the live list. */
  ghost predicate Exact(t: Tables, live: Live) {
    Unspent(t.rows) == ValuesOf(live) && t.index == live
  }

  /**
   What a database can hold that was filled, and perhaps pruned, from this history: values it made,
   handles it has.
   */
  ghost predicate FilledFrom(t: Tables, start: Live, spends: seq<Spend>) {
    RowValues(t.rows) <= MadeAt(start, spends) && t.index.Keys <= LiveAt(start, spends).Keys
  }

  /**
   A cold walk over the whole history makes the tables exact, whatever an earlier walk had left in
   them: rows resurrected by being saved again are marked again.
   */
  lemma ColdWalkIsExact(t: Tables, left: SlotValue, right: SlotValue, parent: nat, spends: seq<Spend>)
    requires Launch(left, right) && ValidHistory(StartLive(left, right), spends)
    requires FilledFrom(t, StartLive(left, right), spends)
    ensures Exact(Walked(SavedAll(t, [left, right], parent), spends), LiveAt(StartLive(left, right), spends))
    ensures FilledFrom(Walked(SavedAll(t, [left, right], parent), spends), StartLive(left, right), spends)
  {
    var start, u := StartLive(left, right), SavedAll(t, [left, right], parent);
    ColdStartShows(t, left, right, parent);
    assert [] + spends == spends;
    WalkShows(u, left, right, [], spends);
    StartMade(start, spends);
    HistoryKeys(left, right, spends);
    ShowsIsExact(Walked(u, spends), MadeAt(start, spends), LiveAt(start, spends));
  }

  lemma ColdStartShows(t: Tables, left: SlotValue, right: SlotValue, parent: nat)
    requires Launch(left, right)
    ensures
      var start, u := StartLive(left, right), SavedAll(t, [left, right], parent);
      && Shows(u, MadeAt(start, []), LiveAt(start, []))
      && RowValues(u.rows) == RowValues(t.rows) + ValuesOf(start)
      && u.index.Keys == t.index.Keys + start.Keys
  {
    ColdRows(t, left, right, parent);
    ColdIndex(t, left, right, parent);
  }

  lemma ColdRows(t: Tables, left: SlotValue, right: SlotValue, parent: nat)
    requires left.handle < right.handle
    ensures
      var u := SavedAll(t, [left, right], parent);
      && ValuesOf(StartLive(left, right)) <= Unspent(u.rows)
      && RowValues(u.rows) == RowValues(t.rows) + ValuesOf(StartLive(left, right))
  {
    var start := StartLive(left, right);
    SavedUnspent(t, [left, right], parent);
    assert Elems([left, right]) == {left, right};
    assert start[left.handle] == left && start[right.handle] == right;
    assert ValuesOf(start) == {left, right};
  }

  lemma ColdIndex(t: Tables, left: SlotValue, right: SlotValue, parent: nat)
    requires left.handle < right.handle
    ensures
      var start, u := StartLive(left, right), SavedAll(t, [left, right], parent);
      && u.index.Keys == t.index.Keys + start.Keys
      && forall h :: h in start ==> h in u.index && u.index[h] == start[h]
  {
    SavedAllIs(t, [left, right], parent);
    StartIndex(left, right);
  }

  lemma StartIndex(left: SlotValue, right: SlotValue)
    requires left.handle < right.handle
    ensures LastCreated([left, right], left.handle) == Some(left)
    ensures LastCreated([left, right], right.handle) == Some(right)
    ensures forall h :: LastCreated([left, right], h).Some? <==> h in StartLive(left, right)
  {
    assert [left, right][..1] == [left] && |[left][..0]| == 0;
    forall h ensures LastCreated([left], h) == (if left.handle == h then Some(left) else None) {
      LastCreatedConcat([], [left], h);
    }
  }

  lemma ShowsIsExact(t: Tables, made: set<SlotValue>, live: Live)
    requires Shows(t, made, live) && RowValues(t.rows) <= made && t.index.Keys <= live.Keys
    ensures Exact(t, live)
  {
    assert Unspent(t.rows) <= RowValues(t.rows);
    assert t.index.Keys == live.Keys;
  }

  lemma {:induction false} StartMade(start: Live, spends: seq<Spend>)
    ensures ValuesOf(start) <= MadeAt(start, spends)
  {
    if spends != [] {
      StartMade(start, spends[..|spends| - 1]);
    }
  }

  lemma {:induction false} HistoryKeys(left: SlotValue, right: SlotValue, spends: seq<Spend>)
    requires Launch(left, right) && ValidHistory(StartLive(left, right), spends)
    ensures StartLive(left, right).Keys <= LiveAt(StartLive(left, right), spends).Keys
  {
    if spends != [] {
      var front := spends[..|spends| - 1];
      HistoryKeys(left, right, front);
      HistoryIsSound(left, right, front);
      LogsKeepChain(LiveAt(StartLive(left, right), front), spends[|spends| - 1].logs, left.handle, right.handle);
    }
  }

  /** Resuming from tables exact for an earlier point gives tables exact for the later one. */
  lemma ResumedWalkIsExact(t: Tables, left: SlotValue, right: SlotValue, past: seq<Spend>, spends: seq<Spend>)
    requires Launch(left, right) && ValidHistory(StartLive(left, right), past + spends)
    requires Exact(t, LiveAt(StartLive(left, right), past)) && RowValues(t.rows) <= MadeAt(StartLive(left, right), past)
    ensures Exact(Walked(t, spends), LiveAt(StartLive(left, right), past + spends))
    ensures RowValues(Walked(t, spends).rows) <= MadeAt(StartLive(left, right), past + spends)
  {
    var start := StartLive(left, right);
    assert Unspent(t.rows) <= RowValues(t.rows);
    WalkShows(t, left, right, past, spends);
    LongerHistory(left, right, past, spends);
    ShowsIsExact(Walked(t, spends), MadeAt(start, past + spends), LiveAt(start, past + spends));
  }

  lemma {:induction false} LongerHistory(left: SlotValue, right: SlotValue, past: seq<Spend>, spends: seq<Spend>)
    requires Launch(left, right) && ValidHistory(StartLive(left, right), past + spends)
    ensures ValidHistory(StartLive(left, right), past)
    ensures MadeAt(StartLive(left, right), past) <= MadeAt(StartLive(left, right), past + spends)
    ensures LiveAt(StartLive(left, right), past).Keys <= LiveAt(StartLive(left, right), past + spends).Keys
    decreases |spends|
  {
    if spends == [] {
      assert past + spends == past;
    } else {
      var front, s := spends[..|spends| - 1], spends[|spends| - 1];
      assert (past + spends)[..|past + spends| - 1] == past + front;
      LongerHistory(left, right, past, front);
      HistoryIsSound(left, right, past + front);
      LogsKeepChain(LiveAt(StartLive(left, right), past + front), s.logs, left.handle, right.handle);
    }
  }

  /** Pruning spent rows at any time removes no unspent row and adds no value. */
  lemma PruningKeepsUnspent(rows: Rows, threshold: u32)
    ensures Unspent(WithoutOld(rows, threshold)) == Unspent(rows)
    ensures RowValues(WithoutOld(rows, threshold)) <= RowValues(rows)
  {
    forall v | v in Unspent(rows) ensures v in Unspent(WithoutOld(rows, threshold)) {
      var k :| k in rows && rows[k] == 0 && k.value == v;
      assert k in WithoutOld(rows, threshold);
    }
  }

  /**
   A cold start after an earlier walk and a pruning, with more spends on the chain since: the
   tables come out exact for the longer history.
   */
  lemma RewalkIsExact(left: SlotValue, right: SlotValue, parent: nat, past: seq<Spend>, spends: seq<Spend>,
                      threshold: u32)
    requires Launch(left, right) && ValidHistory(StartLive(left, right), past + spends)
    ensures
      var first := Walked(SavedAll(Tables(map[], map[]), [left, right], parent), past);
      var pruned := Tables(WithoutOld(first.rows, threshold), first.index);
      && Exact(first, LiveAt(StartLive(left, right), past))
      && Exact(Walked(SavedAll(pruned, [left, right], parent), past + spends),
               LiveAt(StartLive(left, right), past + spends))
  {
    var empty := Tables(map[], map[]);
    LongerHistory(left, right, past, spends);
    ColdWalkIsExact(empty, left, right, parent, past);
    var first := Walked(SavedAll(empty, [left, right], parent), past);
    PruningKeepsUnspent(first.rows, threshold);
    ColdWalkIsExact(Tables(WithoutOld(first.rows, threshold), first.index), left, right, parent, past + spends);
  }

  // ---------------------------------------------------------------------------------
  // Rows one by one
  // ---------------------------------------------------------------------------------

  type Parents = map<SlotValue, nat>

  /** The coin each value made by a history descends from. */
  function ParentsAt(start: Live, parent: nat, spends: seq<Spend>): Parents {
    if spends == [] then map v | v in ValuesOf(start) :: parent
    else
      var s := spends[|spends| - 1];
      ParentsAt(start, parent, spends[..|spends| - 1]) + map v | v in Elems(Created(s.logs)) :: s.parent
  }

  /** Every row of a known value is under the coin the value descends from. */
  ghost predicate Parented(rows: Rows, parents: Parents) {
    forall k :: k in rows ==> k.value in parents && k.parent == parents[k.value]
  }

  lemma {:induction false} SavedParented(t: Tables, vs: seq<SlotValue>, parent: nat, parents: Parents)
    requires Parented(t.rows, parents) && forall v :: v in vs ==> v in parents && parents[v] == parent
    ensures Parented(SavedAll(t, vs, parent).rows, parents)
  {
    if vs != [] {
      assert vs[|vs| - 1] in vs;
      SavedParented(t, vs[..|vs| - 1], parent, parents);
    }
  }

  lemma {:induction false} MarkedParented(rows: Rows, vs: seq<SlotValue>, height: u32, parents: Parents)
    requires Parented(rows, parents)
    ensures Parented(MarkedAll(rows, vs, height), parents)
  {
    if vs != [] {
      MarkedParented(rows, vs[..|vs| - 1], height, parents);
    }
  }

  lemma {:induction false} ParentsKnown(start: Live, parent: nat, spends: seq<Spend>)
    ensures ParentsAt(start, parent, spends).Keys == MadeAt(start, spends)
  {
    if spends != [] {
      ParentsKnown(start, parent, spends[..|spends| - 1]);
    }
  }

  ghost predicate Extends(late: Parents, early: Parents) {
    forall v :: v in early ==> v in late && late[v] == early[v]
  }

  lemma NextSpendIsFresh(left: SlotValue, right: SlotValue, spends: seq<Spend>, s: Spend)
    requires Launch(left, right) && ValidHistory(StartLive(left, right), spends + [s])
    ensures Elems(Created(s.logs)) !! MadeAt(StartLive(left, right), spends)
  {
    var start := StartLive(left, right);
    assert (spends + [s])[..|spends|] == spends;
    HistoryIsSound(left, right, spends);
    LogsAreClean(LiveAt(start, spends), MadeAt(start, spends), s.logs, left.handle, right.handle);
  }

  /** Values are made once, so a longer history gives the earlier ones the same parents. */
  lemma {:induction false} ParentsStable(left: SlotValue, right: SlotValue, parent: nat, past: seq<Spend>,
                                         more: seq<Spend>)
    requires Launch(left, right) && ValidHistory(StartLive(left, right), past + more)
    ensures Extends(ParentsAt(StartLive(left, right), parent, past + more),
                    ParentsAt(StartLive(left, right), parent, past))
    decreases |more|
  {
    if more == [] {
      assert past + more == past;
    } else {
      var start := StartLive(left, right);
      var front, s := more[..|more| - 1], more[|more| - 1];
      SplitLast(past, more);
      HistoryPrefix(start, past + more, past + front);
      ParentsStable(left, right, parent, past, front);
      NextSpendExtends(left, right, parent, past + front, s);
    }
  }

  lemma NextSpendExtends(left: SlotValue, right: SlotValue, parent: nat, spends: seq<Spend>, s: Spend)
    requires Launch(left, right) && ValidHistory(StartLive(left, right), spends + [s])
    ensures
      var start := StartLive(left, right);
      Extends(ParentsAt(start, parent, spends + [s]), ParentsAt(start, parent, spends))
  {
    assert (spends + [s])[..|spends|] == spends;
    NextSpendIsFresh(left, right, spends, s);
    ParentsKnown(StartLive(left, right), parent, spends);
  }

  lemma {:induction false} WalkParented(t: Tables, left: SlotValue, right: SlotValue, parent: nat,
                                        spends: seq<Spend>, rest: seq<Spend>)
    requires Launch(left, right) && ValidHistory(StartLive(left, right), spends + rest)
    requires Parented(t.rows, ParentsAt(StartLive(left, right), parent, spends + rest))
    ensures Parented(Walked(t, spends).rows, ParentsAt(StartLive(left, right), parent, spends + rest))
    decreases |spends|
  {
    if spends != [] {
      var start := StartLive(left, right);
      var front, s := spends[..|spends| - 1], spends[|spends| - 1];
      var parents := ParentsAt(start, parent, spends + rest);
      assert spends + rest == front + ([s] + rest);
      WalkParented(t, left, right, parent, front, [s] + rest);
      ParentsStable(left, right, parent, spends, rest);
      ParentsKnown(start, parent, front);
      forall v | v in Created(s.logs) ensures v in parents && parents[v] == s.parent {
        assert v in Elems(Created(s.logs)) && v in ParentsAt(start, parent, spends);
      }
      SavedParented(Walked(t, front), Created(s.logs), s.parent, parents);
      MarkedParented(SavedAll(Walked(t, front), Created(s.logs), s.parent).rows, Spent(s.logs), s.height, parents);
    }
  }

  /** Each live slot has exactly one unspent row, under the coin that made it, and there is no other unspent row. */
  ghost predicate ExactRows(rows: Rows, live: Live, parents: Parents) {
    forall k :: (k in rows && rows[k] == 0) <==>
      (k.value in ValuesOf(live) && k.value in parents && k.parent == parents[k.value])
  }

  /** The cold walk over any rows of its history, pruned or not, row by row. */
  lemma ColdWalkRowsAreExact(t: Tables, left: SlotValue, right: SlotValue, parent: nat, spends: seq<Spend>)
    requires Launch(left, right) && ValidHistory(StartLive(left, right), spends)
    requires FilledFrom(t, StartLive(left, right), spends)
    requires Parented(t.rows, ParentsAt(StartLive(left, right), parent, spends))
    ensures ExactRows(Walked(SavedAll(t, [left, right], parent), spends).rows, LiveAt(StartLive(left, right), spends),
                      ParentsAt(StartLive(left, right), parent, spends))
  {
    var start := StartLive(left, right);
    var parents, u := ParentsAt(start, parent, spends), SavedAll(t, [left, right], parent);
    LaunchIsChain(left, right);
    assert [] + spends == spends && spends + [] == spends;
    ParentsStable(left, right, parent, [], spends);
    ParentsKnown(start, parent, spends);
    SavedParented(t, [left, right], parent, parents);
    WalkParented(u, left, right, parent, spends, []);
    ColdWalkIsExact(t, left, right, parent, spends);
    RowsFromValues(Walked(u, spends), LiveAt(start, spends), parents);
  }

  lemma RowsFromValues(t: Tables, live: Live, parents: Parents)
    requires Exact(t, live) && Parented(t.rows, parents)
    ensures ExactRows(t.rows, live, parents)
  {
    forall k ensures (k in t.rows && t.rows[k] == 0)
      <==> (k.value in ValuesOf(live) && k.value in parents && k.parent == parents[k.value])
    {
      if k.value in ValuesOf(live) && k.value in parents && k.parent == parents[k.value] {
        assert k.value in Unspent(t.rows);
        var q :| q in t.rows && t.rows[q] == 0 && q.value == k.value;
        assert q == k;
      }
      if k in t.rows && t.rows[k] == 0 {
        assert k.value in Unspent(t.rows);
      }
    }
  }
}
