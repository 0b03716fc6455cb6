/** Rows ordered by expiration and handle, and the fact that an ordered listing of a set of rows is unique. */
module Listing {
  import opened Common

  /** A listed row: its sort key, expiration then handle, and what it carries. */
  datatype Item<+T> = Item(expiration: int, handle: string, body: T)

  /** Byte order of text. */
  predicate StrLess(a: string, b: string) {
    if b == [] then false
    else if a == [] then true
    else if a[0] != b[0] then a[0] < b[0]
    else StrLess(a[1..], b[1..])
  }

  /** The texts agree up to position `k`, where the first ends or has the smaller character. */
  ghost predicate LessAt(a: string, b: string, k: int) {
    0 <= k <= |a| && k < |b| && (forall i :: 0 <= i < k ==> a[i] == b[i]) && (k < |a| ==> a[k] < b[k])
  }

  /** Of two texts the one is first that is smaller where they first differ, or that ends there. */
  lemma {:induction false} StrLessIff(a: string, b: string)
    ensures StrLess(a, b) <==> exists k :: LessAt(a, b, k)
  {
    if b != [] && a != [] && a[0] == b[0] {
      StrLessIff(a[1..], b[1..]);
      if k :| LessAt(a[1..], b[1..], k) {
        assert forall i :: 0 < i < |a| ==> a[i] == a[1..][i - 1];
        assert forall i :: 0 < i < |b| ==> b[i] == b[1..][i - 1];
        assert LessAt(a, b, k + 1);
      }
      if k :| LessAt(a, b, k) {
        assert LessAt(a[1..], b[1..], k - 1);
      }
    } else if StrLess(a, b) {
      assert LessAt(a, b, 0);
    }
  }

  predicate KeyLess(e: int, h: string, f: int, g: string) {
    e < f || (e == f && StrLess(h, g))
  }

  predicate Precedes<T>(a: Item<T>, b: Item<T>) {
    KeyLess(a.expiration, a.handle, b.expiration, b.handle)
  }

  lemma {:induction false} StrTotal(a: string, b: string)
    ensures a != b ==> StrLess(a, b) || StrLess(b, a)
    ensures !(StrLess(a, b) && StrLess(b, a)) && !StrLess(a, a)
  {
    if a != [] && b != [] {
      StrTotal(a[1..], b[1..]);
      assert a == [a[0]] + a[1..] && b == [b[0]] + b[1..];
    }
    if a != [] {
      StrTotal(a[1..], a[1..]);
    }
  }

  lemma {:induction false} StrTransitive(a: string, b: string, c: string)
    requires StrLess(a, b) && StrLess(b, c)
    ensures StrLess(a, c)
  {
    if a != [] && a[0] == b[0] && b[0] == c[0] {
      StrTransitive(a[1..], b[1..], c[1..]);
    }
  }

  lemma PrecedesTransitive<T>(a: Item<T>, b: Item<T>, c: Item<T>)
    requires Precedes(a, b) && Precedes(b, c)
    ensures Precedes(a, c)
  {
    if StrLess(a.handle, b.handle) && StrLess(b.handle, c.handle) {
      StrTransitive(a.handle, b.handle, c.handle);
    }
  }

  lemma PrecedesTotal<T>(a: Item<T>, b: Item<T>)
    ensures a.handle != b.handle ==> Precedes(a, b) || Precedes(b, a)
    ensures !(Precedes(a, b) && Precedes(b, a)) && !Precedes(a, a)
  {
    StrTotal(a.handle, b.handle);
  }

  ghost predicate Ascending<T>(s: seq<Item<T>>) {
    forall i, j :: 0 <= i < j < |s| ==> Precedes(s[i], s[j])
  }

  /** The rows of a set in ascending order, each once. */
  ghost predicate Listed<T(!new)>(full: seq<Item<T>>, all: set<Item<T>>) {
    Ascending(full) && forall x :: x in full <==> x in all
  }

  function Take<T>(s: seq<T>, n: nat): seq<T> {
    if n < |s| then s[..n] else s
  }

  /** The first `limit` rows of a set. */
  ghost predicate FirstOf<T(!new)>(out: seq<Item<T>>, all: set<Item<T>>, limit: nat) {
    exists full :: Listed(full, all) && out == Take(full, limit)
  }

  /** There is only one way to list a set of rows. */
  lemma {:induction false} ListedOnce<T(!new)>(s: seq<Item<T>>, t: seq<Item<T>>, all: set<Item<T>>)
    requires Listed(s, all) && Listed(t, all)
    ensures s == t
    decreases |s|
  {
    if s == [] {
      ListedEmpty(s, all);
      ListedEmpty(t, all);
    } else {
      assert s[0] in t && t != [];
      assert t[0] in s;
      SameHead(s, t);
      TailListed(s, all);
      TailListed(t, all);
      ListedOnce(s[1..], t[1..], all - {s[0]});
    }
  }

  lemma ListedEmpty<T(!new)>(s: seq<Item<T>>, all: set<Item<T>>)
    requires Listed(s, all)
    ensures s == [] <==> all == {}
  {
    if s != [] {
      assert s[0] in all;
    }
  }

  lemma SameHead<T>(s: seq<Item<T>>, t: seq<Item<T>>)
    requires Ascending(s) && Ascending(t) && s != [] && t != []
    requires s[0] in t && t[0] in s
    ensures s[0] == t[0]
  {
    HeadFirst(s, t[0]);
    HeadFirst(t, s[0]);
    PrecedesTotal(s[0], t[0]);
  }

  lemma HeadFirst<T>(s: seq<Item<T>>, x: Item<T>)
    requires Ascending(s) && x in s
    ensures x == s[0] || Precedes(s[0], x)
  {
  }

  lemma TailAfterHead<T>(s: seq<Item<T>>, x: Item<T>)
    requires Ascending(s) && s != [] && x in s[1..]
    ensures Precedes(s[0], x)
  {
    var k :| 0 <= k < |s[1..]| && s[1..][k] == x;
    assert Precedes(s[0], s[k + 1]);
  }

  lemma TailListed<T(!new)>(s: seq<Item<T>>, all: set<Item<T>>)
    requires Listed(s, all) && s != []
    ensures Listed(s[1..], all - {s[0]})
  {
    forall i | 0 < i < |s| ensures s[i] != s[0] {
      PrecedesTotal(s[0], s[i]);
      assert Precedes(s[0], s[i]);
    }
    forall x ensures x in s[1..] <==> x in all - {s[0]} {
      if x in all - {s[0]} {
        assert x in s;
        var i :| 0 <= i < |s| && s[i] == x;
        assert s[1..][i - 1] == x;
      }
    }
  }

  // ---------------------------------------------------------------------------------
  // Sorting
  // ---------------------------------------------------------------------------------

  ghost predicate DistinctHandles<T>(s: seq<Item<T>>) {
    forall i, j :: 0 <= i < j < |s| ==> s[i].handle != s[j].handle
  }

  function Insert<T>(x: Item<T>, s: seq<Item<T>>): seq<Item<T>> {
    if s == [] || Precedes(x, s[0]) then [x] + s else [s[0]] + Insert(x, s[1..])
  }

  function InOrder<T>(s: seq<Item<T>>): seq<Item<T>> {
    if s == [] then [] else Insert(s[|s| - 1], InOrder(s[..|s| - 1]))
  }

  lemma {:induction false} InsertKeeps<T>(x: Item<T>, s: seq<Item<T>>, y: Item<T>)
    ensures y in Insert(x, s) <==> y == x || y in s
  {
    if s != [] && !Precedes(x, s[0]) {
      InsertKeeps(x, s[1..], y);
      assert s == [s[0]] + s[1..];
    }
  }

  lemma {:induction false} InsertAscends<T>(x: Item<T>, s: seq<Item<T>>)
    requires Ascending(s) && forall y :: y in s ==> y.handle != x.handle
    ensures Ascending(Insert(x, s))
  {
    if s == [] {
    } else if Precedes(x, s[0]) {
      forall i | 0 < i < |s| ensures Precedes(x, s[i]) {
        PrecedesTransitive(x, s[0], s[i]);
      }
    } else {
      var rest := Insert(x, s[1..]);
      InsertAscends(x, s[1..]);
      PrecedesTotal(x, s[0]);
      forall j | 0 <= j < |rest| ensures Precedes(s[0], rest[j]) {
        assert rest[j] in rest;
        InsertKeeps(x, s[1..], rest[j]);
        if rest[j] != x {
          TailAfterHead(s, rest[j]);
        } else {
          assert s[0] in s;
        }
      }
    }
  }

  lemma {:induction false} InOrderKeeps<T>(s: seq<Item<T>>, y: Item<T>)
    ensures y in InOrder(s) <==> y in s
  {
    if s != [] {
      var front, x := s[..|s| - 1], s[|s| - 1];
      assert s == front + [x];
      InOrderKeeps(front, y);
      InsertKeeps(x, InOrder(front), y);
    }
  }

  /** Sorting rows whose handles differ lists exactly those rows. */
  lemma {:induction false} InOrderAscends<T>(s: seq<Item<T>>)
    requires DistinctHandles(s)
    ensures Ascending(InOrder(s))
  {
    if s != [] {
      var front, x := s[..|s| - 1], s[|s| - 1];
      InOrderAscends(front);
      forall y | y in InOrder(front) ensures y.handle != x.handle {
        InOrderKeeps(front, y);
        var i :| 0 <= i < |front| && front[i] == y;
        assert s[i] == y;
      }
      InsertAscends(x, InOrder(front));
    }
  }
}
