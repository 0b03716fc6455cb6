/**
 The registry as its puzzles keep it: a sorted doubly linked list of live Handle slots, whose
 counters make every value ever created unique.
 */
module SlotChain {
  import opened Common
  import opened Registry

  /** Live slot values by handle hash. */
  type Live = map<Bytes32, SlotValue>

  ghost predicate Adjacent(live: Live, a: Bytes32, b: Bytes32) {
    a in live && b in live && a < b && !exists k :: k in live && a < k < b
  }

  /** Between the two end slots, neighbours in key order name each other. */
  ghost predicate Chain(live: Live, lo: Bytes32, hi: Bytes32) {
    && lo in live && hi in live && lo < hi
    && (forall h :: h in live ==> lo <= h <= hi && live[h].handle == h)
    && forall a, b :: Adjacent(live, a, b) ==> live[a].right == b && live[b].left == a
  }

  /** The slot at the same handle is spent and created again with the next counter and the same links. */
  predicate Respends(live: Live, s: SlotValue, c: SlotValue) {
    && s.handle in live && live[s.handle] == s
    && c.counter == s.counter + 1 && c.handle == s.handle && c.left == s.left && c.right == s.right
  }

  predicate SameParties(s: SlotValue, c: SlotValue) {
    c.owner == s.owner && c.resolved == s.resolved
  }

  /** What each action's puzzle enforces about the slots it spends and creates. */
  predicate ValidLog(live: Live, log: ActionLog) {
    match log
    case RegisterLog(sl, sr, cl, c, cr, _, _) =>
      && sl.handle in live && live[sl.handle] == sl && sr.handle in live && live[sr.handle] == sr
      && sl.right == sr.handle && sr.left == sl.handle
      && sl.handle < c.handle < sr.handle
      && c.counter == 0 && c.left == sl.handle && c.right == sr.handle
      && cl == sl.(counter := sl.counter + 1, right := c.handle)
      && cr == sr.(counter := sr.counter + 1, left := c.handle)
    case ExpireLog(s, c, _, _) => Respends(live, s, c)
    case ExtendLog(s, c) => Respends(live, s, c) && SameParties(s, c)
    case OracleLog(s, c) => Respends(live, s, c) && SameParties(s, c)
    case InitiateUpdateLog(s, c, _) => Respends(live, s, c) && SameParties(s, c)
    case ExecuteUpdateLog(s, c, _, _) => Respends(live, s, c)
    case RefundLog(Some(s), Some(c)) => Respends(live, s, c) && SameParties(s, c)
    case RefundLog(None, None) => true
    case RefundLog(_, _) => false
    case DelegatedStateLog => true
  }

  function PutAll(live: Live, vs: seq<SlotValue>): Live {
    if vs == [] then live else PutAll(live, vs[..|vs| - 1])[vs[|vs| - 1].handle := vs[|vs| - 1]]
  }

  /** Every action replaces the live value at each handle it creates a slot for. */
  function AfterLog(live: Live, log: ActionLog): Live {
    PutAll(live, CreatedBy(log))
  }

  predicate ValidLogs(live: Live, logs: seq<ActionLog>) {
    logs == [] ||
    (ValidLogs(live, logs[..|logs| - 1]) && ValidLog(AfterLogs(live, logs[..|logs| - 1]), logs[|logs| - 1]))
  }

  function AfterLogs(live: Live, logs: seq<ActionLog>): Live {
    if logs == [] then live else AfterLog(AfterLogs(live, logs[..|logs| - 1]), logs[|logs| - 1])
  }

  lemma PutOne(live: Live, c: SlotValue)
    ensures PutAll(live, [c]) == live[c.handle := c]
  {
    assert [c][..0] == [];
  }

  /** What an action does to the live slots, action kind by action kind. */
  lemma AfterLogCases(live: Live, log: ActionLog)
    requires ValidLog(live, log)
    ensures log.RegisterLog? ==>
      AfterLog(live, log) ==
        live[log.spentLeft.handle := log.createdLeft][log.createdHandle.handle := log.createdHandle]
            [log.spentRight.handle := log.createdRight]
    ensures !log.RegisterLog? && Replacement(log).None? ==>
      AfterLog(live, log) == live && CreatedBy(log) == [] && SpentBy(log) == []
    ensures Replacement(log).Some? ==>
      var (s, c) := Replacement(log).value;
      && Respends(live, s, c) && CreatedBy(log) == [c] && SpentBy(log) == [s]
      && AfterLog(live, log) == live[c.handle := c]
  {
    if log.RegisterLog? {
      var cl, c, cr := log.createdLeft, log.createdHandle, log.createdRight;
      PutOne(live, cl);
      assert PutAll(live, [cl, c]) == PutAll(live, [cl])[c.handle := c] by {
        assert [cl, c][..1] == [cl];
      }
      assert [cl, c, cr][..2] == [cl, c];
      assert PutAll(live, [cl, c, cr]) == PutAll(live, [cl, c])[cr.handle := cr];
    } else if Replacement(log).Some? {
      PutOne(live, Replacement(log).value.1);
    }
  }

  // ---------------------------------------------------------------------------------
  // The list stays sorted and linked
  // ---------------------------------------------------------------------------------

  lemma ReplaceKeepsChain(live: Live, c: SlotValue, lo: Bytes32, hi: Bytes32)
    requires Chain(live, lo, hi) && c.handle in live
    requires c.left == live[c.handle].left && c.right == live[c.handle].right
    ensures Chain(live[c.handle := c], lo, hi)
  {
    var live' := live[c.handle := c];
    assert live'.Keys == live.Keys;
    forall a, b | Adjacent(live', a, b) ensures live'[a].right == b && live'[b].left == a {
      assert Adjacent(live, a, b);
    }
  }

  lemma InsertKeepsChain(live: Live, sl: SlotValue, c: SlotValue, sr: SlotValue, lo: Bytes32, hi: Bytes32)
    requires Chain(live, lo, hi)
    requires sl.handle in live && live[sl.handle] == sl && sr.handle in live && live[sr.handle] == sr
    requires sl.right == sr.handle && sr.left == sl.handle
    requires sl.handle < c.handle < sr.handle && c.left == sl.handle && c.right == sr.handle
    ensures Adjacent(live, sl.handle, sr.handle) && c.handle !in live
    ensures Chain(live[sl.handle := sl.(counter := sl.counter + 1, right := c.handle)][c.handle := c]
                      [sr.handle := sr.(counter := sr.counter + 1, left := c.handle)], lo, hi)
  {
    var l, h, r := sl.handle, c.handle, sr.handle;
    LinkedIsAdjacent(live, l, lo, hi);
    var live' := live[l := sl.(counter := sl.counter + 1, right := h)][h := c]
                    [r := sr.(counter := sr.counter + 1, left := h)];
    assert live'.Keys == live.Keys + {h};
    forall a, b | Adjacent(live', a, b) ensures live'[a].right == b && live'[b].left == a {
      assert h in live' && l in live' && r in live';
      if a == h {
        assert b <= r;
      } else if b == h {
        assert l <= a;
      } else {
        assert Adjacent(live, a, b);
      }
    }
  }

  /** The right link of any slot but the last one is the next live key. */
  lemma LinkedIsAdjacent(live: Live, l: Bytes32, lo: Bytes32, hi: Bytes32)
    requires Chain(live, lo, hi) && l in live && l < hi
    ensures Adjacent(live, l, live[l].right)
  {
    var above := set k | k in live && l < k;
    assert hi in above;
    var r := Least(above);
    assert r in live && l < r;
    forall k | k in live && l < k ensures r <= k {
      assert k in above;
    }
    assert Adjacent(live, l, r);
  }

  lemma Least(s: set<Bytes32>) returns (m: Bytes32)
    requires s != {}
    ensures m in s && forall k :: k in s ==> m <= k
    decreases |s|
  {
    m :| m in s;
    if s != {m} {
      var n := Least(s - {m});
      assert forall k :: k in s ==> k == m || k in s - {m};
      if n < m {
        m := n;
      }
    }
  }

  lemma Greatest(s: set<Bytes32>) returns (m: Bytes32)
    requires s != {}
    ensures m in s && forall k :: k in s ==> k <= m
    decreases |s|
  {
    m :| m in s;
    if s != {m} {
      var n := Greatest(s - {m});
      assert forall k :: k in s ==> k == m || k in s - {m};
      if n > m {
        m := n;
      }
    }
  }

  lemma LogKeepsChain(live: Live, log: ActionLog, lo: Bytes32, hi: Bytes32)
    requires Chain(live, lo, hi) && ValidLog(live, log)
    ensures Chain(AfterLog(live, log), lo, hi)
    ensures live.Keys <= AfterLog(live, log).Keys
  {
    AfterLogCases(live, log);
    if log.RegisterLog? {
      InsertKeepsChain(live, log.spentLeft, log.createdHandle, log.spentRight, lo, hi);
    } else if Replacement(log).Some? {
      ReplaceKeepsChain(live, Replacement(log).value.1, lo, hi);
    }
  }

  lemma {:induction false} LogsKeepChain(live: Live, logs: seq<ActionLog>, lo: Bytes32, hi: Bytes32)
    requires Chain(live, lo, hi) && ValidLogs(live, logs)
    ensures Chain(AfterLogs(live, logs), lo, hi)
    ensures live.Keys <= AfterLogs(live, logs).Keys
  {
    if logs != [] {
      LogsKeepChain(live, logs[..|logs| - 1], lo, hi);
      LogKeepsChain(AfterLogs(live, logs[..|logs| - 1]), logs[|logs| - 1], lo, hi);
    }
  }

  // ---------------------------------------------------------------------------------
  // Counters make values unique
  // ---------------------------------------------------------------------------------

  /** `made` are all values ever created: per handle the live one has the highest counter. */
  ghost predicate Counted(live: Live, made: set<SlotValue>) {
    && (forall h :: h in live ==> live[h].handle == h && live[h] in made)
    && forall v :: v in made ==> v.handle in live && v.counter <= live[v.handle].counter
                                 && (v.counter == live[v.handle].counter ==> v == live[v.handle])
  }

  ghost predicate NoDup(vs: seq<SlotValue>) {
    forall i, j :: 0 <= i < j < |vs| ==> vs[i] != vs[j]
  }

  function Elems(vs: seq<SlotValue>): set<SlotValue> {
    set v | v in vs
  }

  function ValuesOf(live: Live): set<SlotValue> {
    set h | h in live :: live[h]
  }

  /** One step creates only new values, at distinct handles, and spends exactly the values it replaces. */
  ghost predicate FreshStep(live: Live, made: set<SlotValue>, created: seq<SlotValue>, spent: seq<SlotValue>,
                            live': Live) {
    && NoDup(created) && Elems(created) !! made
    && Counted(live', made + Elems(created))
    && Elems(spent) <= ValuesOf(live)
    && ValuesOf(live') == ValuesOf(live) - Elems(spent) + Elems(created)
    && live.Keys <= live'.Keys
    && (forall h :: h in live' && (forall v :: v in created ==> v.handle != h) ==> h in live && live'[h] == live[h])
    && forall v :: v in created ==> v.handle in live' && live'[v.handle] == v
  }

  lemma LogIsFresh(live: Live, made: set<SlotValue>, log: ActionLog, lo: Bytes32, hi: Bytes32)
    requires Chain(live, lo, hi) && Counted(live, made) && ValidLog(live, log)
    ensures FreshStep(live, made, CreatedBy(log), SpentBy(log), AfterLog(live, log))
  {
    AfterLogCases(live, log);
    if log.RegisterLog? {
      InsertKeepsChain(live, log.spentLeft, log.createdHandle, log.spentRight, lo, hi);
      InsertIsFresh(live, made, log.spentLeft, log.createdLeft, log.createdHandle, log.spentRight, log.createdRight);
    } else if Replacement(log).Some? {
      ReplaceIsFresh(live, made, Replacement(log).value.0, Replacement(log).value.1);
    }
  }

  lemma ReplaceIsFresh(live: Live, made: set<SlotValue>, s: SlotValue, c: SlotValue)
    requires Counted(live, made) && Respends(live, s, c)
    ensures FreshStep(live, made, [c], [s], live[c.handle := c])
  {
    ReplaceValues(live, c);
    assert Elems([c]) == {c} && Elems([s]) == {s};
  }

  lemma InsertIsFresh(live: Live, made: set<SlotValue>, sl: SlotValue, cl: SlotValue, c: SlotValue, sr: SlotValue,
                      cr: SlotValue)
    requires Counted(live, made)
    requires sl.handle in live && live[sl.handle] == sl && sr.handle in live && live[sr.handle] == sr
    requires sl.handle < c.handle < sr.handle && c.handle !in live
    requires cl.handle == sl.handle && cl.counter == sl.counter + 1
    requires cr.handle == sr.handle && cr.counter == sr.counter + 1
    ensures FreshStep(live, made, [cl, c, cr], [sl, sr], live[sl.handle := cl][c.handle := c][sr.handle := cr])
  {
    InsertValues(live, sl, cl, c, sr, cr);
    InsertCounted(live, made, sl, cl, c, sr, cr);
    assert Elems([cl, c, cr]) == {cl, c, cr} && Elems([sl, sr]) == {sl, sr};
  }

  lemma InsertCounted(live: Live, made: set<SlotValue>, sl: SlotValue, cl: SlotValue, c: SlotValue, sr: SlotValue,
                      cr: SlotValue)
    requires Counted(live, made)
    requires sl.handle in live && live[sl.handle] == sl && sr.handle in live && live[sr.handle] == sr
    requires sl.handle < c.handle < sr.handle && c.handle !in live
    requires cl.handle == sl.handle && cl.counter == sl.counter + 1
    requires cr.handle == sr.handle && cr.counter == sr.counter + 1
    ensures Counted(live[sl.handle := cl][c.handle := c][sr.handle := cr], made + {cl, c, cr})
    ensures made !! {cl, c, cr}
  {
  }

  lemma ReplaceValues(live: Live, c: SlotValue)
    requires (forall h :: h in live ==> live[h].handle == h) && c.handle in live
    ensures ValuesOf(live[c.handle := c]) == ValuesOf(live) - {live[c.handle]} + {c}
  {
    var live' := live[c.handle := c];
    assert c in ValuesOf(live') by {
      assert live'[c.handle] == c;
    }
    forall v | v in ValuesOf(live) - {live[c.handle]} ensures v in ValuesOf(live') {
      var h :| h in live && live[h] == v;
      assert live'[h] == v;
    }
  }

  lemma InsertValues(live: Live, sl: SlotValue, cl: SlotValue, c: SlotValue, sr: SlotValue, cr: SlotValue)
    requires forall h :: h in live ==> live[h].handle == h
    requires sl.handle in live && live[sl.handle] == sl && sr.handle in live && live[sr.handle] == sr
    requires sl.handle < c.handle < sr.handle && c.handle !in live
    requires cl.handle == sl.handle && cr.handle == sr.handle
    ensures ValuesOf(live[sl.handle := cl][c.handle := c][sr.handle := cr]) == ValuesOf(live) - {sl, sr} + {cl, c, cr}
  {
    var l1 := live[sl.handle := cl];
    ReplaceValues(live, cl);
    var l2 := l1[c.handle := c];
    assert ValuesOf(l2) == ValuesOf(l1) + {c} by {
      assert l2[c.handle] == c;
      forall v | v in ValuesOf(l1) ensures v in ValuesOf(l2) {
        var h :| h in l1 && l1[h] == v;
        assert l2[h] == v;
      }
    }
    ReplaceValues(l2, cr);
    assert cl != sr && c != sr;
    assert sl !in ValuesOf(l1) || cl == sl;
  }

  // ---------------------------------------------------------------------------------
  // A whole transition
  // ---------------------------------------------------------------------------------

  /** Last value created for a handle, if any. */
  function LastCreated(vs: seq<SlotValue>, h: Bytes32): Option<SlotValue> {
    if vs == [] then None
    else if vs[|vs| - 1].handle == h then Some(vs[|vs| - 1])
    else LastCreated(vs[..|vs| - 1], h)
  }

  /**
   What the tables need to know about one registry spend: created values are new and pairwise
   different, spent ones were live or have just been created, and what is live afterwards is the
   last value created per handle, or else the value live before.
   */
  ghost predicate CleanTransition(live: Live, made: set<SlotValue>, created: seq<SlotValue>, spent: seq<SlotValue>,
                                  live': Live) {
    && NoDup(created) && Elems(created) !! made
    && ValuesOf(live) <= made
    && Elems(spent) <= ValuesOf(live) + Elems(created)
    && ValuesOf(live') == ValuesOf(live) + Elems(created) - Elems(spent)
    && live.Keys <= live'.Keys
    && (forall h :: h in live' ==> live'[h].handle == h)
    && (forall v :: v in created ==> v.handle in live')
    && LastWins(live, created, live')
  }

  ghost predicate LastWins(live: Live, created: seq<SlotValue>, live': Live) {
    forall h :: h in live' ==>
      match LastCreated(created, h)
      case Some(v) => live'[h] == v
      case None => h in live && live'[h] == live[h]
  }

  lemma {:induction false} LastCreatedConcat(a: seq<SlotValue>, b: seq<SlotValue>, h: Bytes32)
    ensures LastCreated(a + b, h) == if LastCreated(b, h).Some? then LastCreated(b, h) else LastCreated(a, h)
    ensures LastCreated(b, h).Some? <==> exists v :: v in b && v.handle == h
    ensures LastCreated(b, h).Some? ==> LastCreated(b, h).value in b && LastCreated(b, h).value.handle == h
    decreases |b|
  {
    if b == [] {
      assert a + b == a;
    } else {
      assert (a + b)[..|a + b| - 1] == a + b[..|b| - 1];
      LastCreatedConcat(a, b[..|b| - 1], h);
      assert b == b[..|b| - 1] + [b[|b| - 1]];
    }
  }

  lemma ConcatElems(a: seq<SlotValue>, b: seq<SlotValue>)
    ensures Elems(a + b) == Elems(a) + Elems(b)
  {
  }

  lemma NoDupConcat(a: seq<SlotValue>, b: seq<SlotValue>)
    requires NoDup(a) && NoDup(b) && Elems(a) !! Elems(b)
    ensures NoDup(a + b)
  {
    forall i, j | 0 <= i < |a| && 0 <= j < |b| ensures a[i] != b[j] {
      assert a[i] in Elems(a) && b[j] in Elems(b);
    }
  }

  lemma NothingIsClean(live: Live, made: set<SlotValue>)
    requires Counted(live, made)
    ensures CleanTransition(live, made, [], [], live)
  {
    assert ValuesOf(live) + Elems([]) - Elems([]) == ValuesOf(live);
  }

  lemma JoinLast(live: Live, made: set<SlotValue>, c1: seq<SlotValue>, mid: Live, c2: seq<SlotValue>,
                 s2: seq<SlotValue>, live': Live)
    requires LastWins(live, c1, mid) && FreshStep(mid, made, c2, s2, live')
    ensures LastWins(live, c1 + c2, live')
  {
    forall h | h in live'
      ensures match LastCreated(c1 + c2, h)
              case Some(v) => live'[h] == v
              case None => h in live && live'[h] == live[h]
    {
      LastCreatedConcat(c1, c2, h);
    }
  }

  lemma JoinValues(live: Live, made: set<SlotValue>, c1: seq<SlotValue>, s1: seq<SlotValue>, mid: Live,
                   c2: seq<SlotValue>, s2: seq<SlotValue>, live': Live)
    requires CleanTransition(live, made, c1, s1, mid)
    requires FreshStep(mid, made + Elems(c1), c2, s2, live')
    ensures Elems(s1 + s2) <= ValuesOf(live) + Elems(c1 + c2)
    ensures ValuesOf(live') == ValuesOf(live) + Elems(c1 + c2) - Elems(s1 + s2)
  {
    ConcatElems(c1, c2);
    ConcatElems(s1, s2);
    assert Elems(s1) !! Elems(c2);
  }

  lemma JoinClean(live: Live, made: set<SlotValue>, c1: seq<SlotValue>, s1: seq<SlotValue>, mid: Live,
                  c2: seq<SlotValue>, s2: seq<SlotValue>, live': Live)
    requires CleanTransition(live, made, c1, s1, mid)
    requires FreshStep(mid, made + Elems(c1), c2, s2, live')
    ensures CleanTransition(live, made, c1 + c2, s1 + s2, live')
    ensures Counted(live', made + Elems(c1 + c2))
  {
    ConcatElems(c1, c2);
    assert made + Elems(c1 + c2) == made + Elems(c1) + Elems(c2);
    NoDupConcat(c1, c2);
    JoinValues(live, made, c1, s1, mid, c2, s2, live');
    JoinLast(live, made + Elems(c1), c1, mid, c2, s2, live');
  }

  lemma LastLogIsFresh(live: Live, made: set<SlotValue>, logs: seq<ActionLog>, lo: Bytes32, hi: Bytes32)
    requires logs != [] && Chain(live, lo, hi) && ValidLogs(live, logs)
    requires Counted(AfterLogs(live, logs[..|logs| - 1]), made)
    ensures
      var log := logs[|logs| - 1];
      FreshStep(AfterLogs(live, logs[..|logs| - 1]), made, CreatedBy(log), SpentBy(log), AfterLogs(live, logs))
  {
    LogsKeepChain(live, logs[..|logs| - 1], lo, hi);
    LogIsFresh(AfterLogs(live, logs[..|logs| - 1]), made, logs[|logs| - 1], lo, hi);
  }

  lemma CleanLastLog(live: Live, made: set<SlotValue>, logs: seq<ActionLog>, lo: Bytes32, hi: Bytes32)
    requires logs != [] && Chain(live, lo, hi) && ValidLogs(live, logs)
    requires CleanRun(live, made, logs[..|logs| - 1])
    ensures CleanRun(live, made, logs)
  {
    var front, log := logs[..|logs| - 1], logs[|logs| - 1];
    LastLogIsFresh(live, made + Elems(Created(front)), logs, lo, hi);
    JoinClean(live, made, Created(front), Spent(front), AfterLogs(live, front), CreatedBy(log), SpentBy(log),
              AfterLogs(live, logs));
  }

  ghost predicate CleanRun(live: Live, made: set<SlotValue>, logs: seq<ActionLog>)
    requires ValidLogs(live, logs)
  {
    && CleanTransition(live, made, Created(logs), Spent(logs), AfterLogs(live, logs))
    && Counted(AfterLogs(live, logs), made + Elems(Created(logs)))
  }

  /** Every transition the puzzles allow is clean. */
  lemma {:induction false} LogsAreClean(live: Live, made: set<SlotValue>, logs: seq<ActionLog>, lo: Bytes32,
                                        hi: Bytes32)
    requires Chain(live, lo, hi) && Counted(live, made) && ValidLogs(live, logs)
    ensures CleanRun(live, made, logs)
  {
    if logs == [] {
      assert made + Elems([]) == made;
      NothingIsClean(live, made);
    } else {
      LogsAreClean(live, made, logs[..|logs| - 1], lo, hi);
      CleanLastLog(live, made, logs, lo, hi);
    }
  }
}
