/**
 The neighbour query over the slot tables, and the HTTP client that rebuilds full slot values from
 a response which omits the two links between the neighbours.
 */
module Neighbors {
  import opened Common
  import opened Registry
  import opened SlotChain
  import opened SlotTables

  // ---------------------------------------------------------------------------------
  // The query
  // ---------------------------------------------------------------------------------

  ghost predicate IsPredecessor(keys: set<Bytes32>, h: Bytes32, m: Bytes32) {
    m in keys && m < h && forall k :: k in keys && k < h ==> k <= m
  }

  ghost predicate IsSuccessor(keys: set<Bytes32>, h: Bytes32, m: Bytes32) {
    m in keys && h < m && forall k :: k in keys && h < k ==> m <= k
  }

  /** The value of the first index row in the given direction, if some unspent row holds it. */
  ghost predicate Selects(t: Tables, k: Bytes32, v: SlotValue) {
    k in t.index && t.index[k] == v && v in Unspent(t.rows)
  }

  /** Both sides of the query; an error when either side has no row. */
  ghost predicate Answers(t: Tables, h: Bytes32, answer: Option<(SlotValue, SlotValue)>) {
    match answer
    case Some((l, r)) =>
      && (exists a :: IsPredecessor(t.index.Keys, h, a) && Selects(t, a, l))
      && (exists b :: IsSuccessor(t.index.Keys, h, b) && Selects(t, b, r))
    case None =>
      || !(exists a, l :: IsPredecessor(t.index.Keys, h, a) && Selects(t, a, l))
      || !(exists b, r :: IsSuccessor(t.index.Keys, h, b) && Selects(t, b, r))
  }

  method GetNeighbors(t: Tables, h: Bytes32) returns (answer: Option<(SlotValue, SlotValue)>)
    ensures Answers(t, h, answer)
  {
    var left: Option<Bytes32>, right: Option<Bytes32> := None, None;
    var todo := t.index.Keys;
    ghost var seen: set<Bytes32> := {};
    while todo != {}
      invariant todo + seen == t.index.Keys
      invariant left.Some? ==> IsPredecessor(seen, h, left.value)
      invariant left.None? ==> forall k :: k in seen ==> h <= k
      invariant right.Some? ==> IsSuccessor(seen, h, right.value)
      invariant right.None? ==> forall k :: k in seen ==> k <= h
      decreases todo
    {
      var k :| k in todo;
      todo, seen := todo - {k}, seen + {k};
      if k < h && (left.None? || left.value < k) {
        left := Some(k);
      }
      if h < k && (right.None? || k < right.value) {
        right := Some(k);
      }
    }
    assert seen == t.index.Keys;
    if left.None? || right.None? {
      return None;
    }
    var a, b := left.value, right.value;
    var l, r := t.index[a], t.index[b];
    var unspent := set k | k in t.rows && t.rows[k] == 0 :: k.value;
    if l !in unspent || r !in unspent {
      if l !in unspent {
        assert forall k :: IsPredecessor(t.index.Keys, h, k) ==> k == a;
      } else {
        assert forall k :: IsSuccessor(t.index.Keys, h, k) ==> k == b;
      }
      return None;
    }
    assert Selects(t, a, l) && Selects(t, b, r);
    return Some((l, r));
  }

  /**
   Over exact tables the query answers inside the end slots with the live slots on either side,
   and outside them with an error.
   */
  lemma QueryReadsChain(t: Tables, live: Live, lo: Bytes32, hi: Bytes32, h: Bytes32,
                        answer: Option<(SlotValue, SlotValue)>)
    requires Exact(t, live) && Chain(live, lo, hi) && Answers(t, h, answer)
    ensures answer.Some? <==> lo < h < hi
    ensures answer.Some? ==>
      var (l, r) := answer.value;
      && IsPredecessor(live.Keys, h, l.handle) && live[l.handle] == l
      && IsSuccessor(live.Keys, h, r.handle) && live[r.handle] == r
  {
    if lo < h < hi {
      var below, above := set k | k in live && k < h, set k | k in live && h < k;
      assert lo in below && hi in above;
      var a := Greatest(below);
      var b := Least(above);
      assert forall k :: k in live && k < h ==> k in below;
      assert forall k :: k in live && h < k ==> k in above;
      assert live[a] in ValuesOf(live) && live[b] in ValuesOf(live);
      assert IsPredecessor(t.index.Keys, h, a) && Selects(t, a, live[a]);
      assert IsSuccessor(t.index.Keys, h, b) && Selects(t, b, live[b]);
    }
  }

  // ---------------------------------------------------------------------------------
  // The response and the client
  // ---------------------------------------------------------------------------------

  /** The response carries both slots without the left slot's right link and the right slot's left link. */
  datatype Response = Response(
    leftHandle: Bytes32, rightHandle: Bytes32,
    leftLeft: Bytes32, leftExpiration: u64, leftCounter: nat, leftOwner: Bytes32, leftResolved: Bytes32,
    rightRight: Bytes32, rightExpiration: u64, rightCounter: nat, rightOwner: Bytes32, rightResolved: Bytes32)

  function Respond(l: SlotValue, r: SlotValue): Response {
    Response(l.handle, r.handle,
             l.left, l.expiration, l.counter, l.owner, l.resolved,
             r.right, r.expiration, r.counter, r.owner, r.resolved)
  }

  function Rebuild(p: Response): (SlotValue, SlotValue) {
    (SlotValue(p.leftCounter, p.leftHandle, p.leftLeft, p.rightHandle, p.leftExpiration, p.leftOwner, p.leftResolved),
     SlotValue(p.rightCounter, p.rightHandle, p.leftHandle, p.rightRight,
               p.rightExpiration, p.rightOwner, p.rightResolved))
  }

  /** Nothing live sits between the two sides of a query but possibly the queried key itself. */
  lemma SidesAreAdjacent(live: Live, lo: Bytes32, hi: Bytes32, h: Bytes32, a: Bytes32, b: Bytes32)
    requires Chain(live, lo, hi) && IsPredecessor(live.Keys, h, a) && IsSuccessor(live.Keys, h, b)
    ensures h !in live ==> live[a].right == b && live[b].left == a
    ensures h in live ==> live[a].right == h && live[b].left == h
  {
    if h in live {
      assert Adjacent(live, a, h) && Adjacent(live, h, b);
    } else {
      assert Adjacent(live, a, b);
    }
  }

  /** The client's rebuilt neighbours are the stored slots exactly when the queried key is not live. */
  lemma RebuiltIsStoredIff(t: Tables, live: Live, lo: Bytes32, hi: Bytes32, h: Bytes32, l: SlotValue, r: SlotValue)
    requires Exact(t, live) && Chain(live, lo, hi) && Answers(t, h, Some((l, r)))
    ensures Rebuild(Respond(l, r)) == (l, r) <==> h !in live
  {
    QueryReadsChain(t, live, lo, hi, h, Some((l, r)));
    SidesAreAdjacent(live, lo, hi, h, l.handle, r.handle);
  }

  // ---------------------------------------------------------------------------------
  // Looking a handle up through its decremented key
  // ---------------------------------------------------------------------------------

  type byte = x: int | 0 <= x < 256

  function BigEndian(s: seq<byte>): nat {
    if s == [] then 0 else BigEndian(s[..|s| - 1]) * 256 + s[|s| - 1]
  }

  function Pow256(n: nat): nat {
    if n == 0 then 1 else 256 * Pow256(n - 1)
  }

  ghost predicate TrailingZeros(s: seq<byte>, z: nat) {
    z < |s| && s[|s| - 1 - z] != 0 && forall i :: |s| - z <= i < |s| ==> s[i] == 0
  }

  /** A key's number goes down by the weight of its last non-zero byte. */
  ghost predicate StepsDown(before: seq<byte>, after: seq<byte>) {
    exists z: nat {:trigger Pow256(z)} :: TrailingZeros(before, z) && BigEndian(after) == BigEndian(before) - Pow256(z)
  }

  /** Only the last non-zero byte is decremented; the zero bytes after it do not borrow. */
  method DecrementKey(key: array<byte>) returns (ok: bool)
    requires key.Length == 32
    modifies key
    ensures ok <==> exists i :: 0 <= i < key.Length && old(key[i]) != 0
    ensures !ok ==> key[..] == old(key[..])
    ensures ok ==> StepsDown(old(key[..]), key[..])
  {
    var index := 31;
    while key[index] == 0
      invariant 0 <= index < 32
      invariant forall i :: index < i < 32 ==> key[i] == 0
      invariant key[..] == old(key[..])
      decreases index
    {
      if index == 0 {
        return false;
      }
      index := index - 1;
    }
    ghost var before := key[..];
    key[index] := key[index] - 1;
    DecrementValue(before, 31 - index);
    assert key[..] == before[index := before[index] - 1];
    ok := true;
  }

  lemma {:induction false} DecrementValue(s: seq<byte>, z: nat)
    requires TrailingZeros(s, z)
    ensures BigEndian(s[|s| - 1 - z := s[|s| - 1 - z] - 1]) == BigEndian(s) - Pow256(z)
  {
    var t := s[|s| - 1 - z := s[|s| - 1 - z] - 1];
    if z == 0 {
      assert t[..|s| - 1] == s[..|s| - 1];
    } else {
      var front := s[..|s| - 1];
      assert |front| - 1 - (z - 1) == |s| - 1 - z;
      DecrementValue(front, z - 1);
      assert t[..|s| - 1] == front[|front| - 1 - (z - 1) := front[|front| - 1 - (z - 1)] - 1];
    }
  }

  /** What the client returns for a handle: the rebuilt right side of the query at the decremented key. */
  ghost predicate LooksUp(t: Tables, d: Bytes32, found: Option<SlotValue>) {
    match found
    case None => Answers(t, d, None)
    case Some(v) => exists l, r {:trigger Respond(l, r)} :: Answers(t, d, Some((l, r))) && Rebuild(Respond(l, r)).1 == v
  }

  /**
   Looking up a live handle through a smaller key returns its stored slot exactly when no live key
   lies from that key up to the handle, and the key is inside the list.
   */
  lemma LookupFindsSlotIff(t: Tables, live: Live, lo: Bytes32, hi: Bytes32, h: Bytes32, d: Bytes32,
                           found: Option<SlotValue>)
    requires Exact(t, live) && Chain(live, lo, hi) && h in live && d < h
    requires LooksUp(t, d, found)
    ensures found == Some(live[h]) <==> lo < d && !exists k :: k in live && d <= k < h
  {
    match found {
      case None =>
        QueryReadsChain(t, live, lo, hi, d, None);
      case Some(v) =>
        var l, r :| Answers(t, d, Some((l, r))) && Rebuild(Respond(l, r)).1 == v;
        QueryReadsChain(t, live, lo, hi, d, Some((l, r)));
        SidesAreAdjacent(live, lo, hi, d, l.handle, r.handle);
        assert r.handle <= h;
        if r.handle < h {
          assert r.handle in live && d <= r.handle < h;
        }
    }
  }

  lemma StepsDownIsBelow(before: seq<byte>, after: seq<byte>)
    requires StepsDown(before, after)
    ensures BigEndian(after) < BigEndian(before)
  {
    var z: nat :| TrailingZeros(before, z) && BigEndian(after) == BigEndian(before) - Pow256(z);
    PowPositive(z);
  }

  lemma {:induction false} PowPositive(n: nat)
    ensures Pow256(n) > 0
  {
    if n > 0 {
      PowPositive(n - 1);
    }
  }

  ghost predicate Over(t: Tables, live: Live, lo: Bytes32, hi: Bytes32, h: Bytes32) {
    Exact(t, live) && Chain(live, lo, hi) && h in live
  }

  /**
   The client's lookup of a handle by its bytes. Over exact tables it returns the stored slot exactly
   when the decremented key is above the first slot and no live key lies from it up to the handle. An
   all-zero key has no byte to decrement.
   */
  method GetSlotValue(t: Tables, key: array<byte>) returns (ok: bool, found: Option<SlotValue>)
    requires key.Length == 32
    modifies key
    ensures ok <==> exists i :: 0 <= i < key.Length && old(key[i]) != 0
    ensures ok ==> StepsDown(old(key[..]), key[..]) && LooksUp(t, BigEndian(key[..]), found)
    ensures ok ==> forall live: Live, lo: Bytes32, hi: Bytes32 :: Over(t, live, lo, hi, BigEndian(old(key[..]))) ==>
      (found == Some(live[BigEndian(old(key[..]))]) <==>
       lo < BigEndian(key[..]) && !exists k :: k in live && BigEndian(key[..]) <= k < BigEndian(old(key[..])))
  {
    ghost var bytes := key[..];
    ok := DecrementKey(key);
    if !ok {
      return false, None;
    }
    ghost var h, d := BigEndian(bytes), BigEndian(key[..]);
    StepsDownIsBelow(bytes, key[..]);
    var answer := GetNeighbors(t, BigEndian(key[..]));
    found := if answer.None? then None else Some(Rebuild(Respond(answer.value.0, answer.value.1)).1);
    forall live: Live, lo: Bytes32, hi: Bytes32 | Over(t, live, lo, hi, h)
      ensures found == Some(live[h]) <==> lo < d && !exists k :: k in live && d <= k < h
    {
      LookupFindsSlotIff(t, live, lo, hi, h, d, found);
    }
  }

  /** The first slot of the list is never found. */
  lemma FirstSlotIsNotFound(t: Tables, live: Live, lo: Bytes32, hi: Bytes32, d: Bytes32, found: Option<SlotValue>)
    requires Exact(t, live) && Chain(live, lo, hi) && d < lo && LooksUp(t, d, found)
    ensures found == None
  {
    LookupFindsSlotIff(t, live, lo, hi, lo, d, found);
    if found.Some? {
      var l, r :| Answers(t, d, Some((l, r))) && Rebuild(Respond(l, r)).1 == found.value;
      QueryReadsChain(t, live, lo, hi, d, Some((l, r)));
    }
  }
}
