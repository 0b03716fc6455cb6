/** The expiring directory: windows, pages and cursors, and what following a cursor to the end yields. */
module ExpiringPages {
  import opened Common
  import opened Registry
  import opened Versions
  import opened Indexer
  import opened Listing
  import opened HandleListings
  import opened Cursors
  import opened Arithmetic
  import AuctionPremium

  const SOON_WINDOW: nat := 30 * 86_400
  const MAX_PAGE: nat := 50

  function SoonWindow(now: nat): (nat, nat) {
    (SatAdd64(now, 1), SatAdd64(now, SOON_WINDOW))
  }

  function ActiveWindow(now: nat, projected: nat): (nat, nat) {
    var min :=
      if projected < AuctionPremium.AUCTION_DURATION then 0
      else SatAdd64(projected - AuctionPremium.AUCTION_DURATION, 1);
    (min, if now < projected then now else projected)
  }

  /** The soon window is what expires within thirty days, and at the very last representable second that second too. */
  lemma SoonWindowIff(now: nat, e: nat)
    requires now <= MAX_U64 && e <= MAX_U64
    ensures SoonWindow(now).0 <= e <= SoonWindow(now).1
       <==> now < e <= now + 30 * 86_400 || now == e == MAX_U64
  {
  }

  /** The active window is what has expired and is still inside its auction at the projected time. */
  lemma ActiveWindowIff(now: nat, projected: nat, e: nat)
    requires now <= MAX_U64 && projected <= MAX_U64
    ensures ActiveWindow(now, projected).0 <= e <= ActiveWindow(now, projected).1
       <==> e <= now && e <= projected && projected - e < 28 * 86_400
  {
  }

  /** No expired handle that still carries a premium is outside the active window. */
  lemma PricedInWindow(p: AuctionPremium.Pricing, now: nat, projected: nat, e: nat)
    requires p.precision > 0 && now <= MAX_U64 && projected <= MAX_U64
    requires e <= now && AuctionPremium.Premium(p, e, projected) != 0
    ensures ActiveWindow(now, projected).0 <= e <= ActiveWindow(now, projected).1
  {
    ActiveWindowIff(now, projected, e);
  }

  // ---------------------------------------------------------------------------------
  // Pages
  // ---------------------------------------------------------------------------------

  /** A page, or the failure of indexing before the first row. */
  datatype Page = Page(items: seq<Row>, next: Option<string>) | Panic

  function PageLimit(limit: Option<nat>): nat {
    match limit
    case None => MAX_PAGE
    case Some(n) => if n < MAX_PAGE then n else MAX_PAGE
  }

  /** Fifty rows unless fewer are asked for. */
  lemma PageLimitIs(limit: Option<nat>)
    ensures PageLimit(limit) <= 50
    ensures PageLimit(limit) == 50 <==> limit.None? || limit.value >= 50
    ensures limit.Some? && limit.value <= 50 ==> PageLimit(limit) == limit.value
  {
  }

  /** A cursor that cannot be read starts over. */
  function AfterOf(cursor: Option<string>): Option<Cursor> {
    if cursor.None? then None
    else
      match DecodeCursor(cursor.value)
      case None => None
      case Some((expiration, handle)) => Some(Cursor(expiration, handle))
  }

  function CursorTo(row: Row): string {
    EncodeCursor(Expiration(row.body), row.handle)
  }

  function MakePage(rows: seq<Row>, limit: nat): Page {
    if |rows| <= limit then Page(rows, None)
    else if limit == 0 then Panic
    else Page(rows[..limit], Some(CursorTo(rows[limit - 1])))
  }

  /** The rows a cursor leaves of an ordered listing. */
  function Rest(full: seq<Row>, after: Option<Cursor>): seq<Row> {
    if full == [] || Passes(after, full[0].expiration, full[0].handle) then full else Rest(full[1..], after)
  }

  function SoonPage(full: seq<Row>, cursor: Option<string>, limit: nat): Page {
    MakePage(Take(Rest(full, AfterOf(cursor)), limit + 1), limit)
  }

  function SoonQuery(registry: Bytes32, now: nat, cursor: Option<string>): Query {
    Query(registry, SoonWindow(now).0, SoonWindow(now).1, AfterOf(cursor))
  }

  function ActiveQuery(registry: Bytes32, now: nat, projected: nat, cursor: Option<string>): Query {
    Query(registry, ActiveWindow(now, projected).0, ActiveWindow(now, projected).1, AfterOf(cursor))
  }

  /** A row of the directory: its key is its slot's expiration and its handle is canonical. */
  predicate Canonical(row: Row) {
    row.expiration == Expiration(row.body) && IsCanonicalHandle(row.handle)
  }

  ghost predicate Directory(full: seq<Row>) {
    Ascending(full) && forall i :: 0 <= i < |full| ==> Canonical(full[i])
  }

  lemma PassesOn(after: Option<Cursor>, a: Row, b: Row)
    requires Passes(after, a.expiration, a.handle) && Precedes(a, b)
    ensures Passes(after, b.expiration, b.handle)
  {
    if after.Some? && StrLess(after.value.handle, a.handle) && StrLess(a.handle, b.handle) {
      StrTransitive(after.value.handle, a.handle, b.handle);
    }
  }

  /** What is left after a cursor is a suffix, and holds exactly the rows past it. */
  lemma {:induction false} RestIsSuffix(full: seq<Row>, after: Option<Cursor>)
    requires Ascending(full)
    ensures |Rest(full, after)| <= |full| && Rest(full, after) == full[|full| - |Rest(full, after)|..]
    ensures forall i :: 0 <= i < |full| ==>
      (Passes(after, full[i].expiration, full[i].handle) <==> |full| - |Rest(full, after)| <= i)
  {
    if full != [] {
      if Passes(after, full[0].expiration, full[0].handle) {
        forall i | 0 < i < |full| ensures Passes(after, full[i].expiration, full[i].handle) {
          PassesOn(after, full[0], full[i]);
        }
      } else {
        RestIsSuffix(full[1..], after);
        assert forall i :: 0 <= i < |full[1..]| ==> full[1..][i] == full[i + 1];
      }
    }
  }

  /** The cursor to a row leaves what follows that row. */
  lemma RestAfterRow(full: seq<Row>, j: nat)
    requires Directory(full) && j < |full|
    ensures Rest(full, AfterOf(Some(CursorTo(full[j])))) == full[j + 1..]
  {
    var row := full[j];
    assert Canonical(row);
    CursorRoundTrip(Expiration(row.body), row.handle);
    var after := AfterOf(Some(CursorTo(row)));
    assert after == Some(Cursor(Expiration(row.body), row.handle));
    RestIsSuffix(full, after);
    forall i | 0 <= i < |full| ensures Passes(after, full[i].expiration, full[i].handle) <==> i > j {
      PrecedesTotal(row, full[i]);
    }
    var k := |full| - |Rest(full, after)|;
    assert !Passes(after, full[j].expiration, full[j].handle);
    if j + 1 < |full| {
      assert Passes(after, full[j + 1].expiration, full[j + 1].handle);
    }
    assert k == j + 1;
  }

  lemma RestLists(full: seq<Row>, slots: Store<StoredSlot>, regs: Store<StoredRegistration>, q: Query)
    requires Listed(full, NamedRows(slots, regs, q.(after := None)))
    ensures Listed(Rest(full, q.after), NamedRows(slots, regs, q))
  {
    RestIsSuffix(full, q.after);
    forall x: Row ensures x in Rest(full, q.after) <==> x in NamedRows(slots, regs, q) {
      RestHolds(full, q.after, x);
      NamedRowsAfter(slots, regs, q, x);
    }
  }

  lemma {:induction false} RestHolds(full: seq<Row>, after: Option<Cursor>, x: Row)
    requires Ascending(full)
    ensures x in Rest(full, after) <==> x in full && Passes(after, x.expiration, x.handle)
  {
    if full != [] {
      assert full == [full[0]] + full[1..];
      if Passes(after, full[0].expiration, full[0].handle) {
        if x in full[1..] {
          TailAfterHead(full, x);
          PassesOn(after, full[0], x);
        }
      } else {
        RestHolds(full[1..], after, x);
      }
    }
  }

  lemma NamedRowsAfter(slots: Store<StoredSlot>, regs: Store<StoredRegistration>, q: Query, x: Row)
    ensures x in NamedRows(slots, regs, q)
       <==> x in NamedRows(slots, regs, q.(after := None)) && Passes(q.after, x.expiration, x.handle)
  {
    var q0 := q.(after := None);
    if x in NamedRows(slots, regs, q0) && Passes(q.after, x.expiration, x.handle) {
      var k :| k in slots && Shown(SlotAt(slots, k), NameAt(regs, k), k, q0)
        && x == RowOf(slots[k].current.value, NameAt(regs, k));
      assert Shown(SlotAt(slots, k), NameAt(regs, k), k, q);
    }
    if x in NamedRows(slots, regs, q) {
      var k :| k in slots && Shown(SlotAt(slots, k), NameAt(regs, k), k, q)
        && x == RowOf(slots[k].current.value, NameAt(regs, k));
      assert Shown(SlotAt(slots, k), NameAt(regs, k), k, q0);
    }
  }

  /** The soon view serves pages of the ordered listing of its window. */
  method LookupExpiringSoon(slots: Store<StoredSlot>, order: seq<Key>, regs: Store<StoredRegistration>,
                            registry: Bytes32, now: nat, cursor: Option<string>, limit: Option<nat>)
    returns (page: Page)
    requires Enumerates(order, slots) && Keyed(slots) && UniqueHandles(regs)
    ensures forall full :: Listed(full, NamedRows(slots, regs, SoonQuery(registry, now, None)))
              ==> page == SoonPage(full, cursor, PageLimit(limit))
  {
    var q := SoonQuery(registry, now, cursor);
    var rows := ListInMemory(slots, order, regs, q, PageLimit(limit) + 1);
    page := MakePage(rows, PageLimit(limit));
    forall full | Listed(full, NamedRows(slots, regs, q.(after := None)))
      ensures page == SoonPage(full, cursor, PageLimit(limit))
    {
      PageOfListing(full, rows, slots, regs, q, PageLimit(limit) + 1);
    }
  }

  lemma PageOfListing(full: seq<Row>, rows: seq<Row>, slots: Store<StoredSlot>, regs: Store<StoredRegistration>,
                      q: Query, limit: nat)
    requires Listed(full, NamedRows(slots, regs, q.(after := None)))
    requires FirstOf(rows, NamedRows(slots, regs, q), limit)
    ensures rows == Take(Rest(full, q.after), limit)
  {
    var listed :| Listed(listed, NamedRows(slots, regs, q)) && rows == Take(listed, limit);
    RestLists(full, slots, regs, q);
    ListedOnce(listed, Rest(full, q.after), NamedRows(slots, regs, q));
  }

  // ---------------------------------------------------------------------------------
  // Following the soon view
  // ---------------------------------------------------------------------------------

  /** The next cursor leaves exactly what the page and its predecessors did not show. */
  lemma NextCursorAdvances(full: seq<Row>, cursor: Option<string>, limit: nat)
    requires Directory(full) && limit >= 1
    ensures
      var rest := Rest(full, AfterOf(cursor));
      var page := SoonPage(full, cursor, limit);
      && page.Page? && page.items == Take(rest, limit)
      && (page.next.Some? <==> |rest| > limit)
      && (page.next.Some? ==> Rest(full, AfterOf(page.next)) == rest[limit..])
  {
    var rest := Rest(full, AfterOf(cursor));
    RestIsSuffix(full, AfterOf(cursor));
    if |rest| > limit {
      var k := |full| - |rest|;
      assert Take(rest, limit + 1)[limit - 1] == full[k + limit - 1];
      RestAfterRow(full, k + limit - 1);
      assert Take(rest, limit + 1)[..limit] == Take(rest, limit);
      assert full[k..][limit..] == full[k + limit..];
    }
  }

  /** All items of the pages reached by following the next cursor until there is none. */
  function Visited(full: seq<Row>, cursor: Option<string>, limit: nat): seq<Row>
    requires Directory(full) && limit >= 1
    decreases |Rest(full, AfterOf(cursor))|
  {
    NextCursorAdvances(full, cursor, limit);
    var page := SoonPage(full, cursor, limit);
    if page.next.None? then page.items else page.items + Visited(full, page.next, limit)
  }

  /** Following the soon view from anywhere ends, and yields every row past the cursor once, in order. */
  lemma {:induction false} VisitYieldsRest(full: seq<Row>, cursor: Option<string>, limit: nat)
    requires Directory(full) && limit >= 1
    ensures Visited(full, cursor, limit) == Rest(full, AfterOf(cursor))
    decreases |Rest(full, AfterOf(cursor))|
  {
    NextCursorAdvances(full, cursor, limit);
    var page := SoonPage(full, cursor, limit);
    if page.next.Some? {
      VisitYieldsRest(full, page.next, limit);
      var rest := Rest(full, AfterOf(cursor));
      assert rest == rest[..limit] + rest[limit..];
    }
  }

  /** From the start: exactly the ordered listing. */
  lemma SoonViewIsComplete(full: seq<Row>, limit: nat)
    requires Directory(full) && limit >= 1
    ensures Visited(full, None, limit) == full
  {
    VisitYieldsRest(full, None, limit);
  }

  /**
   A soon lookup fails exactly when a limit of zero was asked for and a named slot of the window is
   past the cursor.
   */
  lemma ZeroLimitPanicsIff(full: seq<Row>, slots: Store<StoredSlot>, regs: Store<StoredRegistration>,
                           registry: Bytes32, now: nat, cursor: Option<string>, limit: Option<nat>)
    requires Listed(full, NamedRows(slots, regs, SoonQuery(registry, now, None)))
    ensures SoonPage(full, cursor, PageLimit(limit)) == Panic <==>
            limit == Some(0) && NamedRows(slots, regs, SoonQuery(registry, now, cursor)) != {}
  {
    var q := SoonQuery(registry, now, cursor);
    assert q.(after := None) == SoonQuery(registry, now, None);
    RestLists(full, slots, regs, q);
    ListedEmpty(Rest(full, q.after), NamedRows(slots, regs, q));
  }

  /** A page that ends at a handle that is not canonical sends its reader back to the first page. */
  lemma UnreadableCursorRestarts(full: seq<Row>, cursor: Option<string>, limit: nat)
    requires limit >= 1 && |Rest(full, AfterOf(cursor))| > limit
    requires !IsCanonicalHandle(Rest(full, AfterOf(cursor))[limit - 1].handle)
    ensures SoonPage(full, SoonPage(full, cursor, limit).next, limit) == SoonPage(full, None, limit)
  {
    var row := Rest(full, AfterOf(cursor))[limit - 1];
    CursorRoundTrip(Expiration(row.body), row.handle);
  }

  // ---------------------------------------------------------------------------------
  // The active view
  // ---------------------------------------------------------------------------------

  predicate Carries(row: Row, p: AuctionPremium.Pricing, projected: nat)
    requires p.precision > 0
  {
    AuctionPremium.Premium(p, Expiration(row.body), projected) != 0
  }

  /** The rows that still carry a premium. */
  function Priced(rows: seq<Row>, p: AuctionPremium.Pricing, projected: nat): seq<Row>
    requires p.precision > 0
  {
    if rows == [] then []
    else (if Carries(rows[0], p, projected) then [rows[0]] else []) + Priced(rows[1..], p, projected)
  }

  /** The filter comes after the limit: a page counts only the priced rows among those fetched. */
  function ActivePage(full: seq<Row>, cursor: Option<string>, limit: nat, p: AuctionPremium.Pricing,
                      projected: nat): Page
    requires p.precision > 0
  {
    MakePage(Priced(Take(Rest(full, AfterOf(cursor)), limit + 1), p, projected), limit)
  }

  method LookupExpiringActive(slots: Store<StoredSlot>, order: seq<Key>, regs: Store<StoredRegistration>,
                              registry: Bytes32, now: nat, projected: nat, p: AuctionPremium.Pricing,
                              cursor: Option<string>, limit: Option<nat>)
    returns (page: Page)
    requires Enumerates(order, slots) && Keyed(slots) && UniqueHandles(regs) && p.precision > 0
    ensures forall full :: Listed(full, NamedRows(slots, regs, ActiveQuery(registry, now, projected, None)))
              ==> page == ActivePage(full, cursor, PageLimit(limit), p, projected)
  {
    var q := ActiveQuery(registry, now, projected, cursor);
    var rows := ListInMemory(slots, order, regs, q, PageLimit(limit) + 1);
    page := MakePage(Priced(rows, p, projected), PageLimit(limit));
    forall full | Listed(full, NamedRows(slots, regs, q.(after := None)))
      ensures page == ActivePage(full, cursor, PageLimit(limit), p, projected)
    {
      PageOfListing(full, rows, slots, regs, q, PageLimit(limit) + 1);
    }
  }

  lemma {:induction false} PricedAll(rows: seq<Row>, p: AuctionPremium.Pricing, projected: nat)
    requires p.precision > 0
    ensures |Priced(rows, p, projected)| <= |rows|
    ensures |Priced(rows, p, projected)| == |rows| <==> Priced(rows, p, projected) == rows
  {
    if rows != [] {
      PricedAll(rows[1..], p, projected);
    }
  }

  lemma {:induction false} PricedConcat(a: seq<Row>, b: seq<Row>, p: AuctionPremium.Pricing, projected: nat)
    requires p.precision > 0
    ensures Priced(a + b, p, projected) == Priced(a, p, projected) + Priced(b, p, projected)
  {
    if a == [] {
      assert a + b == b;
    } else {
      assert (a + b)[1..] == a[1..] + b;
      PricedConcat(a[1..], b, p, projected);
    }
  }

  /** A next cursor is given only when every fetched row is priced, and then the page is a soon page. */
  lemma ActivePageIs(full: seq<Row>, cursor: Option<string>, limit: nat, p: AuctionPremium.Pricing, projected: nat)
    requires Directory(full) && limit >= 1 && p.precision > 0
    ensures
      var fetched := Take(Rest(full, AfterOf(cursor)), limit + 1);
      var page := ActivePage(full, cursor, limit, p, projected);
      && page.Page?
      && (page.next.Some? <==> |fetched| > limit && Priced(fetched, p, projected) == fetched)
      && page == if page.next.Some? then SoonPage(full, cursor, limit) else Page(Priced(fetched, p, projected), None)
  {
    PricedAll(Take(Rest(full, AfterOf(cursor)), limit + 1), p, projected);
  }

  function ActiveVisited(full: seq<Row>, cursor: Option<string>, limit: nat, p: AuctionPremium.Pricing,
                         projected: nat): seq<Row>
    requires Directory(full) && limit >= 1 && p.precision > 0
    decreases |Rest(full, AfterOf(cursor))|
  {
    ActivePageIs(full, cursor, limit, p, projected);
    NextCursorAdvances(full, cursor, limit);
    var page := ActivePage(full, cursor, limit, p, projected);
    if page.next.None? then page.items else page.items + ActiveVisited(full, page.next, limit, p, projected)
  }

  /** How far into the remaining rows the pages reach: up to the first fetch that holds an unpriced row. */
  function Reach(rest: seq<Row>, limit: nat, p: AuctionPremium.Pricing, projected: nat): (r: nat)
    requires limit >= 1 && p.precision > 0
    ensures r <= |rest|
    decreases |rest|
  {
    if |rest| <= limit then |rest|
    else if Priced(rest[..limit + 1], p, projected) != rest[..limit + 1] then limit + 1
    else limit + Reach(rest[limit..], limit, p, projected)
  }

  /** Following the active view yields the priced rows within its reach, in order. */
  lemma {:induction false} ActiveVisitYields(full: seq<Row>, cursor: Option<string>, limit: nat,
                                             p: AuctionPremium.Pricing, projected: nat)
    requires Directory(full) && limit >= 1 && p.precision > 0
    ensures
      var rest := Rest(full, AfterOf(cursor));
      ActiveVisited(full, cursor, limit, p, projected) == Priced(rest[..Reach(rest, limit, p, projected)], p, projected)
    decreases |Rest(full, AfterOf(cursor))|
  {
    var rest := Rest(full, AfterOf(cursor));
    var page := ActivePage(full, cursor, limit, p, projected);
    ActivePageIs(full, cursor, limit, p, projected);
    NextCursorAdvances(full, cursor, limit);
    if page.next.Some? {
      ActiveVisitYields(full, page.next, limit, p, projected);
      ReachStep(rest, limit, p, projected);
    } else {
      ReachEnd(rest, limit, p, projected);
    }
  }

  lemma ReachEnd(rest: seq<Row>, limit: nat, p: AuctionPremium.Pricing, projected: nat)
    requires limit >= 1 && p.precision > 0
    requires |rest| <= limit || Priced(Take(rest, limit + 1), p, projected) != Take(rest, limit + 1)
    ensures rest[..Reach(rest, limit, p, projected)] == Take(rest, limit + 1)
  {
    if |rest| > limit {
      assert Take(rest, limit + 1) == rest[..limit + 1];
    }
  }

  lemma ReachStep(rest: seq<Row>, limit: nat, p: AuctionPremium.Pricing, projected: nat)
    requires limit >= 1 && p.precision > 0 && |rest| > limit
    requires Priced(Take(rest, limit + 1), p, projected) == Take(rest, limit + 1)
    ensures
      var more := rest[limit..][..Reach(rest[limit..], limit, p, projected)];
      Priced(rest[..Reach(rest, limit, p, projected)], p, projected) == Take(rest, limit) + Priced(more, p, projected)
  {
    var fetched := rest[..limit + 1];
    assert Take(rest, limit + 1) == fetched && Take(rest, limit) == fetched[..limit] == rest[..limit];
    PricedPrefix(fetched, limit, p, projected);
    PricedInTwo(rest, limit, Reach(rest, limit, p, projected), p, projected);
  }

  lemma PricedInTwo(rest: seq<Row>, k: nat, n: nat, p: AuctionPremium.Pricing, projected: nat)
    requires p.precision > 0 && k <= n <= |rest|
    ensures Priced(rest[..n], p, projected)
         == Priced(rest[..k], p, projected) + Priced(rest[k..][..n - k], p, projected)
  {
    assert rest[..n] == rest[..k] + rest[k..][..n - k];
    PricedConcat(rest[..k], rest[k..][..n - k], p, projected);
  }

  lemma PricedPrefix(rows: seq<Row>, n: nat, p: AuctionPremium.Pricing, projected: nat)
    requires p.precision > 0 && n <= |rows| && Priced(rows, p, projected) == rows
    ensures Priced(rows[..n], p, projected) == rows[..n]
  {
    assert rows == rows[..n] + rows[n..];
    PricedConcat(rows[..n], rows[n..], p, projected);
    PricedAll(rows[..n], p, projected);
    PricedAll(rows[n..], p, projected);
  }

  /** Position of the first row that carries no premium any more; the number of rows when there is none. */
  function FirstDecayed(rows: seq<Row>, p: AuctionPremium.Pricing, projected: nat): (z: nat)
    requires p.precision > 0
    ensures z <= |rows|
  {
    if rows == [] || !Carries(rows[0], p, projected) then 0 else 1 + FirstDecayed(rows[1..], p, projected)
  }

  /** Where the view stops among `n` rows: one row past the page that first fetches the decayed row `z`. */
  function StopAt(z: nat, n: nat, limit: nat): nat
    requires limit >= 1
  {
    var page := if z == 0 then 0 else (z - 1) / limit;
    if z >= n || n <= (page + 1) * limit + 1 then n else (page + 1) * limit + 1
  }

  lemma {:induction false} PricedUpToDecayed(rows: seq<Row>, k: nat, p: AuctionPremium.Pricing, projected: nat)
    requires p.precision > 0 && k <= |rows|
    ensures Priced(rows[..k], p, projected) == rows[..k] <==> k <= FirstDecayed(rows, p, projected)
    ensures k <= FirstDecayed(rows, p, projected) ==>
      FirstDecayed(rows[k..], p, projected) == FirstDecayed(rows, p, projected) - k
  {
    if k == 0 {
      assert rows[..0] == [] && rows[0..] == rows;
    } else {
      var tail := rows[1..];
      PricedUpToDecayed(tail, k - 1, p, projected);
      assert rows[..k][1..] == tail[..k - 1] && rows[..k] == [rows[0]] + tail[..k - 1] && tail[k - 1..] == rows[k..];
      PricedAll(tail[..k - 1], p, projected);
    }
  }

  lemma StopWithinPage(z: nat, n: nat, limit: nat)
    requires 1 <= limit < n && z <= limit
    ensures StopAt(z, n, limit) == limit + 1
  {
    if z > 0 {
      QuotientIs(z - 1, limit, 0);
    }
  }

  lemma StopNextPage(z: nat, n: nat, limit: nat)
    requires 1 <= limit < z <= n
    ensures StopAt(z, n, limit) == limit + StopAt(z - limit, n - limit, limit)
  {
    var q := (z - limit - 1) / limit;
    assert q * limit <= z - limit - 1 < q * limit + limit;
    PageAdvances(q, limit);
    PageAdvances(q + 1, limit);
    QuotientIs(z - 1, limit, q + 1);
  }

  lemma PageAdvances(q: nat, limit: nat)
    ensures (q + 1) * limit == q * limit + limit
  {
  }

  /** The reach in closed form. */
  lemma {:induction false} ReachIs(rows: seq<Row>, limit: nat, p: AuctionPremium.Pricing, projected: nat)
    requires limit >= 1 && p.precision > 0
    ensures Reach(rows, limit, p, projected) == StopAt(FirstDecayed(rows, p, projected), |rows|, limit)
    decreases |rows|
  {
    var z, n := FirstDecayed(rows, p, projected), |rows|;
    if n <= limit {
      StopShort(z, n, limit);
    } else {
      PricedUpToDecayed(rows, limit + 1, p, projected);
      if z <= limit {
        StopWithinPage(z, n, limit);
      } else {
        PricedUpToDecayed(rows, limit, p, projected);
        ReachIs(rows[limit..], limit, p, projected);
        StopNextPage(z, n, limit);
      }
    }
  }

  lemma StopShort(z: nat, n: nat, limit: nat)
    requires limit >= 1 && z <= n <= limit
    ensures StopAt(z, n, limit) == n
  {
    PageAdvances(if z == 0 then 0 else (z - 1) / limit, limit);
  }

  /**
   The active view is complete exactly when no row is priced past the page that first fetches a
   decayed one; in particular when no row has decayed.
   */
  lemma ActiveViewCompleteIff(full: seq<Row>, limit: nat, p: AuctionPremium.Pricing, projected: nat)
    requires Directory(full) && limit >= 1 && p.precision > 0
    ensures
      var stop := StopAt(FirstDecayed(full, p, projected), |full|, limit);
      (ActiveVisited(full, None, limit, p, projected) == Priced(full, p, projected)) <==>
      (forall i :: stop <= i < |full| ==> !Carries(full[i], p, projected))
    ensures Priced(full, p, projected) == full ==> ActiveVisited(full, None, limit, p, projected) == full
  {
    var n := Reach(full, limit, p, projected);
    ReachIs(full, limit, p, projected);
    ActiveVisitYields(full, None, limit, p, projected);
    PricedUpTo(full, n, p, projected);
    if Priced(full, p, projected) == full {
      PricedUpToDecayed(full, |full|, p, projected);
      assert full[..|full|] == full && full[..n] == full;
    }
  }

  /** An active lookup with a limit of zero fails exactly when the one row it fetches is still priced. */
  lemma ActiveZeroLimitPanicsIff(full: seq<Row>, cursor: Option<string>, limit: nat, p: AuctionPremium.Pricing,
                                 projected: nat)
    requires p.precision > 0
    ensures ActivePage(full, cursor, limit, p, projected) == Panic <==>
      limit == 0 && Rest(full, AfterOf(cursor)) != [] && Carries(Rest(full, AfterOf(cursor))[0], p, projected)
  {
    var rest := Rest(full, AfterOf(cursor));
    var fetched := Take(rest, limit + 1);
    PricedAll(fetched, p, projected);
    if limit == 0 && rest != [] {
      assert fetched == [rest[0]];
    }
  }

  /** A decayed first row hides every priced row past the first fetch. */
  lemma DecayedRowHidesOthers(full: seq<Row>, limit: nat, p: AuctionPremium.Pricing, projected: nat)
    requires Directory(full) && limit >= 1 && p.precision > 0 && |full| > limit + 1
    requires !Carries(full[0], p, projected) && Carries(full[|full| - 1], p, projected)
    ensures ActiveVisited(full, None, limit, p, projected) != Priced(full, p, projected)
  {
    ActiveViewCompleteIff(full, limit, p, projected);
    StopWithinPage(0, |full|, limit);
  }

  lemma PricedUpTo(rows: seq<Row>, n: nat, p: AuctionPremium.Pricing, projected: nat)
    requires p.precision > 0 && n <= |rows|
    ensures Priced(rows[..n], p, projected) == Priced(rows, p, projected)
       <==> forall i :: n <= i < |rows| ==> !Carries(rows[i], p, projected)
  {
    var rest := rows[n..];
    assert rows == rows[..n] + rest;
    PricedConcat(rows[..n], rest, p, projected);
    NonePriced(rest, p, projected);
    assert forall i :: 0 <= i < |rest| ==> rest[i] == rows[n + i];
    assert forall i :: n <= i < |rows| ==> rows[i] == rest[i - n];
  }

  lemma {:induction false} NonePriced(rows: seq<Row>, p: AuctionPremium.Pricing, projected: nat)
    requires p.precision > 0
    ensures Priced(rows, p, projected) == [] <==> forall i :: 0 <= i < |rows| ==> !Carries(rows[i], p, projected)
  {
    if rows != [] {
      NonePriced(rows[1..], p, projected);
      assert forall i :: 0 < i < |rows| ==> rows[i] == rows[1..][i - 1];
    }
  }
}
