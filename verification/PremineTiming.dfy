/**
 When a premined handle is said to be bought: the calendar month that bounds the purchase time from above,
 and the search for the least number of registration periods that reaches it.
 */
module PremineTiming {
  import opened Common
  import opened Arithmetic

  // ---------------------------------------------------------------------------------
  // The calendar (section 5.7 and Appendix C of RFC 3339)
  // ---------------------------------------------------------------------------------

  const DAY: nat := 86_400

  /** A calendar month; months are numbered from one. */
  type Month = m: (int, int) | 1 <= m.1 <= 12 witness (1970, 1)

  function IsLeap(year: int): bool {
    year % 4 == 0 && (year % 100 != 0 || year % 400 == 0)
  }

  function DaysIn(m: Month): int {
    if m.1 == 2 then (if IsLeap(m.0) then 29 else 28)
    else if m.1 == 4 || m.1 == 6 || m.1 == 9 || m.1 == 11 then 30
    else 31
  }

  function Next(m: Month): Month {
    if m.1 == 12 then (m.0 + 1, 1) else (m.0, m.1 + 1)
  }

  function Previous(m: Month): Month {
    if m.1 == 1 then (m.0 - 1, 12) else (m.0, m.1 - 1)
  }

  /** Days from 1 January 1970 to the first day of a year. */
  function YearStart(year: int): int {
    365 * (year - 1970) + LeapDays(year) - 477
  }

  function DaysBefore(m: Month): int
    decreases m.1
  {
    if m.1 == 1 then 0 else var p: Month := (m.0, m.1 - 1); DaysBefore(p) + DaysIn(p)
  }

  /** Days from 1 January 1970 to the first day of a month. */
  function FirstDay(m: Month): int {
    YearStart(m.0) + DaysBefore(m)
  }

  lemma Step4(n: int)
    ensures (n + 1) / 4 - n / 4 == if (n + 1) % 4 == 0 then 1 else 0
  {
  }

  lemma Step100(n: int)
    ensures (n + 1) / 100 - n / 100 == if (n + 1) % 100 == 0 then 1 else 0
  {
  }

  lemma Step400(n: int)
    ensures (n + 1) / 400 - n / 400 == if (n + 1) % 400 == 0 then 1 else 0
  {
  }

  lemma Divisible(year: int)
    ensures year % 400 == 0 ==> year % 100 == 0
    ensures year % 100 == 0 ==> year % 4 == 0
  {
  }

  /** Leap days before a year. */
  function LeapDays(year: int): int {
    var n := year - 1;
    n / 4 - n / 100 + n / 400
  }

  lemma LeapDaysStep(year: int)
    ensures LeapDays(year + 1) - LeapDays(year) == if IsLeap(year) then 1 else 0
  {
    var n := year - 1;
    Step4(n);
    Step100(n);
    Step400(n);
    Divisible(year);
    assert n + 1 == year;
  }

  /** The closed form of the year starts agrees with the leap-year rule. */
  lemma LeapStep(year: int)
    ensures YearStart(year + 1) == YearStart(year) + 365 + if IsLeap(year) then 1 else 0
  {
    LeapDaysStep(year);
  }

  lemma DaysInYear(year: int)
    ensures DaysBefore((year, 12)) + 31 == 365 + if IsLeap(year) then 1 else 0
  {
    var leap := if IsLeap(year) then 1 else 0;
    assert DaysBefore((year, 2)) == 31;
    assert DaysBefore((year, 3)) == 59 + leap;
    assert DaysBefore((year, 5)) == 120 + leap;
    assert DaysBefore((year, 7)) == 181 + leap;
    assert DaysBefore((year, 9)) == 243 + leap;
    assert DaysBefore((year, 11)) == 304 + leap;
  }

  /** Consecutive months join without gap or overlap, across year ends and leap days. */
  lemma MonthsJoin(m: Month)
    ensures FirstDay(Next(m)) == FirstDay(m) + DaysIn(m)
  {
    if m.1 == 12 {
      LeapStep(m.0);
      DaysInYear(m.0);
    }
  }

  /** Days before a month when years begin in March, so that a leap day is the last of its year. */
  function MarchDays(month: int): int
    requires 1 <= month <= 12
  {
    (153 * (if month > 2 then month - 3 else month + 9) + 2) / 5
  }

  /** Month starts by another count: from March years and their leap days, with no month length written out. */
  lemma FirstDayFromMarch(m: Month)
    ensures
      var y := if m.1 > 2 then m.0 else m.0 - 1;
      FirstDay(m) == 365 * y + y / 4 - y / 100 + y / 400 + MarchDays(m.1) - 719_468
  {
    LeapDaysFrom(m.0);
    if m.1 > 2 {
      LeapDaysStep(m.0);
      LeapDaysFrom(m.0 + 1);
      AfterFebruary(m);
    } else {
      UpToFebruary(m);
    }
  }

  lemma LeapDaysFrom(year: int)
    ensures var y := year - 1; LeapDays(year) == y / 4 - y / 100 + y / 400
  {
  }

  lemma UpToFebruary(m: Month)
    requires m.1 <= 2
    ensures DaysBefore(m) == MarchDays(m.1) - 306
  {
    if m.1 == 2 {
      assert DaysBefore(m) == 31 && MarchDays(2) == 337;
    } else {
      assert DaysBefore(m) == 0 && MarchDays(1) == 306;
    }
  }

  lemma {:induction false} AfterFebruary(m: Month)
    requires m.1 > 2
    ensures DaysBefore(m) == MarchDays(m.1) + 59 + if IsLeap(m.0) then 1 else 0
    decreases m.1
  {
    var p: Month := (m.0, m.1 - 1);
    if m.1 > 3 {
      AfterFebruary(p);
      MarchStep(p);
    } else {
      assert DaysBefore(p) == 31;
    }
  }

  lemma MarchStep(p: Month)
    requires 2 < p.1 < 12
    ensures MarchDays(p.1 + 1) == MarchDays(p.1) + DaysIn(p)
  {
    assert MarchDays(p.1) == [0, 31, 61, 92, 122, 153, 184, 214, 245, 275][p.1 - 3];
    assert MarchDays(p.1 + 1) == [31, 61, 92, 122, 153, 184, 214, 245, 275, 306][p.1 - 3];
  }

  lemma EpochMonth()
    ensures FirstDay((1970, 1)) == 0 && FirstDay((1969, 12)) == -31
  {
    MonthsJoin((1969, 12));
  }

  /** The month a day lies in, found by walking forward from a month not after it. */
  function MonthFrom(day: int, m: Month): (r: Month)
    requires FirstDay(m) <= day
    ensures FirstDay(r) <= day < FirstDay(Next(r))
    decreases day - FirstDay(m)
  {
    MonthsJoin(m);
    if day < FirstDay(Next(m)) then m else MonthFrom(day, Next(m))
  }

  /** The month containing a time in seconds since 1970. */
  function MonthOf(secs: nat): Month {
    EpochMonth();
    MonthFrom(secs / DAY, (1970, 1))
  }

  ghost predicate Before(m: Month, n: Month) {
    m.0 < n.0 || (m.0 == n.0 && m.1 < n.1)
  }

  /** Month starts are ordered as the months are. */
  lemma {:induction false} StartsAreOrdered(m: Month, n: Month)
    requires Before(m, n)
    ensures FirstDay(Next(m)) <= FirstDay(n)
    decreases 12 * (n.0 - m.0) + n.1 - m.1
  {
    if Next(m) != n {
      StartsAreOrdered(Next(m), n);
      MonthsJoin(Next(m));
    }
  }

  lemma MonthIsUnique(day: int, m: Month, n: Month)
    requires FirstDay(m) <= day < FirstDay(Next(m)) && FirstDay(n) <= day < FirstDay(Next(n))
    ensures m == n
  {
    if Before(m, n) {
      StartsAreOrdered(m, n);
    } else if Before(n, m) {
      StartsAreOrdered(n, m);
    }
  }

  // ---------------------------------------------------------------------------------
  // The reference
  // ---------------------------------------------------------------------------------

  /** The current month, or the one before when today is its first day. */
  function ReferenceMonth(now: nat): Month {
    var m := MonthOf(now);
    var dayOfMonth := now / DAY - FirstDay(m) + 1;
    if dayOfMonth == 1 then Previous(m) else m
  }

  function PastReference(now: nat): nat {
    AsU64(DAY * FirstDay(ReferenceMonth(now)))
  }

  lemma ReferenceMonthIsYesterdays(now: nat)
    requires now >= DAY
    ensures ReferenceMonth(now) == MonthOf(now - DAY)
  {
    var day := now / DAY;
    assert (now - DAY) / DAY == day - 1;
    InMonth(now);
    InMonth(now - DAY);
    DayBefore(day, MonthOf(now));
    MonthIsUnique(day - 1, ReferenceMonth(now), MonthOf(now - DAY));
  }

  lemma InMonth(secs: nat)
    ensures FirstDay(MonthOf(secs)) <= secs / DAY < FirstDay(Next(MonthOf(secs)))
  {
    EpochMonth();
  }

  /** Yesterday lies in this month, or in the one before when today is the first. */
  lemma DayBefore(day: int, m: Month)
    requires FirstDay(m) <= day < FirstDay(Next(m))
    ensures
      var p := if day == FirstDay(m) then Previous(m) else m;
      FirstDay(p) <= day - 1 < FirstDay(Next(p))
  {
    PreviousJoins(m);
  }

  lemma PreviousJoins(m: Month)
    ensures Next(Previous(m)) == m && FirstDay(Previous(m)) < FirstDay(m)
  {
    MonthsJoin(Previous(m));
  }

  lemma {:induction false} StartNotNegative(day: int, m: Month)
    requires 0 <= FirstDay(m) <= day
    ensures 0 <= FirstDay(MonthFrom(day, m)) <= day
    decreases day - FirstDay(m)
  {
    MonthsJoin(m);
    if day >= FirstDay(Next(m)) {
      StartNotNegative(day, Next(m));
    }
  }

  /** The reference is the start of the month that contained the same moment yesterday. */
  lemma ReferenceIsYesterdaysMonth(now: nat)
    requires DAY <= now <= MAX_U64
    ensures PastReference(now) == DAY * FirstDay(MonthOf(now - DAY))
  {
    ReferenceMonthIsYesterdays(now);
    EpochMonth();
    var day := (now - DAY) / DAY;
    StartNotNegative(day, (1970, 1));
    Unwrapped(DAY * FirstDay(MonthOf(now - DAY)));
  }

  lemma Unwrapped(t: int)
    requires 0 <= t <= MAX_U64
    ensures AsU64(t) == t
  {
  }

  lemma FirstMonth(now: nat)
    requires now < DAY
    ensures ReferenceMonth(now) == (1969, 12)
  {
    EpochMonth();
    MonthsJoin((1970, 1));
    assert now / DAY == 0;
  }

  /** On the first day of 1970 there is no month to go back to and the reference wraps around. */
  lemma ReferenceWraps(now: nat)
    requires now < DAY
    ensures PastReference(now) == 0x1_0000_0000_0000_0000 - 31 * 86_400
  {
    FirstMonth(now);
    EpochMonth();
  }

  /** The reference holds still exactly from the second of a month up to the second of the next. */
  lemma ReferenceHoldsThroughMonth(m: Month, now: nat)
    requires DAY <= now <= MAX_U64 && FirstDay(m) >= 0
    ensures PastReference(now) == DAY * FirstDay(m)
       <==> DAY * (FirstDay(m) + 1) <= now < DAY * (FirstDay(Next(m)) + 1)
  {
    ReferenceIsYesterdaysMonth(now);
    var day, r := (now - DAY) / DAY, MonthOf(now - DAY);
    assert DAY * (FirstDay(m) + 1) <= now < DAY * (FirstDay(Next(m)) + 1)
      <==> FirstDay(m) <= day < FirstDay(Next(m));
    if FirstDay(m) <= day < FirstDay(Next(m)) {
      MonthIsUnique(day, m, r);
    }
    if FirstDay(r) == FirstDay(m) && r != m {
      if Before(m, r) {
        StartsAreOrdered(m, r);
        MonthsJoin(m);
      } else {
        StartsAreOrdered(r, m);
        MonthsJoin(r);
      }
    }
  }

  // ---------------------------------------------------------------------------------
  // The search
  // ---------------------------------------------------------------------------------

  datatype TimingError = BelowOnePeriod | SpanOverflow | NotBeforeReference | CountOverflow | SumOverflow | WrongSum

  datatype Result<+T> = Ok(value: T) | Err(error: TimingError)

  datatype Timing = Timing(buyTime: nat, n: nat)

  function CheckedMul(a: nat, b: nat): Option<nat> {
    if a * b <= MAX_U64 then Some(a * b) else None
  }

  /** The purchase time and period count must add up to the expiration. */
  function AssertIntended(buyTime: nat, n: nat, expiration: nat, period: nat): Result<()> {
    match CheckedMul(n, period)
    case None => Err(SpanOverflow)
    case Some(span) =>
      if buyTime + span > MAX_U64 then Err(SumOverflow)
      else if buyTime + span != expiration then Err(WrongSum) else Ok(())
  }

  /** A timing, unless the check before it failed. */
  function Checked(check: Result<()>, timing: Timing): Result<Timing> {
    match check
    case Ok(_) => Ok(timing)
    case Err(e) => Err(e)
  }

  /** Subtracting `n` periods lands before the reference. */
  ghost predicate Fits(expiration: nat, reference: nat, period: nat, n: nat) {
    n >= 1 && n * period <= expiration < n * period + reference
  }

  ghost predicate NoneBelow(expiration: nat, reference: nat, period: nat, n: nat) {
    forall k :: 1 <= k < n ==> !Fits(expiration, reference, period, k)
  }

  ghost predicate NoneFits(expiration: nat, reference: nat, period: nat) {
    forall k :: !Fits(expiration, reference, period, k)
  }

  /** The least count that lands before the reference, in closed form. */
  function LeastPeriods(expiration: nat, reference: nat, period: nat): int
    requires period > 0
  {
    if expiration - period < reference then 1 else (expiration - reference) / period + 1
  }

  /**
   A timing is found exactly when some period count fits; it is the least one, and reconstitutes the
   expiration. The checks on the sum never fire.
   */
  method PremineBuyTime(expiration: nat, now: nat, period: nat) returns (r: Result<Timing>)
    requires expiration <= MAX_U64 && 0 < period <= MAX_U64
    ensures r.Ok? <==> Meets(expiration, now, period)
    ensures r.Ok? ==>
      && Fits(expiration, PastReference(now), period, r.value.n)
      && r.value.buyTime + r.value.n * period == expiration
      && r.value.n == LeastPeriods(expiration, PastReference(now), period)
    ensures expiration < period <==> r == Err(BelowOnePeriod)
    ensures r.Err? ==> r.error != SumOverflow && r.error != WrongSum
  {
    var reference := PastReference(now);
    FitsIffRemainder(expiration, reference, period);
    if expiration < period {
      NoneBelowPeriod(expiration, reference, period);
      return Err(BelowOnePeriod);
    }
    r := Search(expiration, reference, period);
    if r.Ok? {
      LeastCount(expiration, reference, period, r.value.n);
    }
  }

  method Search(expiration: nat, reference: nat, period: nat) returns (r: Result<Timing>)
    requires period <= expiration <= MAX_U64 && 0 < period
    ensures r.Ok? ==>
      && Fits(expiration, reference, period, r.value.n)
      && r.value.buyTime + r.value.n * period == expiration
      && NoneBelow(expiration, reference, period, r.value.n)
    ensures r.Err? ==> NoneFits(expiration, reference, period)
    ensures r.Err? ==> r.error == SpanOverflow || r.error == NotBeforeReference || r.error == CountOverflow
  {
    var n := 1;
    ghost var before := 0;
    while true
      invariant 1 <= n <= MAX_U64 && before == (n - 1) * period <= expiration
      invariant NoneBelow(expiration, reference, period, n)
      decreases expiration - before
    {
      NextSpan(expiration, reference, period, n);
      var span := CheckedMul(n, period);
      if span.None? {
        return Err(SpanOverflow);
      }
      if expiration < span.value {
        return Err(NotBeforeReference);
      }
      var buyTime := expiration - span.value;
      if buyTime < reference {
        return Checked(AssertIntended(buyTime, n, expiration, period), Timing(buyTime, n));
      }
      if n == MAX_U64 {
        LastCount(expiration, reference, period);
        return Err(CountOverflow);
      }
      n := n + 1;
      before := span.value;
    }
  }

  lemma NoneBelowPeriod(expiration: nat, reference: nat, period: nat)
    requires expiration < period
    ensures NoneFits(expiration, reference, period)
  {
    forall k: nat ensures !Fits(expiration, reference, period, k) {
      if k >= 1 {
        MulMono(1, k, period);
      }
    }
  }

  lemma NextSpan(expiration: nat, reference: nat, period: nat, n: nat)
    requires n >= 1 && period > 0 && NoneBelow(expiration, reference, period, n)
    ensures n * period == (n - 1) * period + period
    ensures expiration < n * period ==> NoneFits(expiration, reference, period)
    ensures n * period <= expiration && reference <= expiration - n * period
        ==> NoneBelow(expiration, reference, period, n + 1)
  {
    if expiration < n * period {
      forall k: nat ensures !Fits(expiration, reference, period, k) {
        if k >= n {
          MulMono(n, k, period);
        }
      }
    }
  }

  lemma LastCount(expiration: nat, reference: nat, period: nat)
    requires expiration <= MAX_U64 && period > 0
    requires NoneBelow(expiration, reference, period, MAX_U64)
    requires !Fits(expiration, reference, period, MAX_U64)
    ensures NoneFits(expiration, reference, period)
  {
    forall k: nat ensures !Fits(expiration, reference, period, k) {
      if k > MAX_U64 {
        MulMono(1, period, k);
      }
    }
  }

  /** A count fits exactly when the expiration reaches one period and its remainder falls before the reference. */
  lemma FitsIffRemainder(expiration: nat, reference: nat, period: nat)
    requires period > 0
    ensures (exists n :: Fits(expiration, reference, period, n))
       <==> expiration >= period && expiration % period < reference
  {
    var q := expiration / period;
    assert expiration == q * period + expiration % period;
    if n :| Fits(expiration, reference, period, n) {
      MulMono(1, n, period);
      RemainderLeast(expiration, period, n);
    }
    if expiration >= period && expiration % period < reference {
      QuotientAtLeast(expiration, period);
      assert Fits(expiration, reference, period, q);
    }
  }

  lemma QuotientAtLeast(x: nat, d: nat)
    requires x >= d > 0
    ensures x / d >= 1
  {
  }

  lemma RemainderLeast(x: nat, d: nat, n: nat)
    requires d > 0 && n * d <= x
    ensures x % d <= x - n * d
  {
    var q := x / d;
    assert x == q * d + x % d;
    if n > q {
      MulMono(q + 1, n, d);
    } else {
      MulMono(n, q, d);
    }
  }

  /** The least fitting count in closed form. */
  lemma LeastCount(expiration: nat, reference: nat, period: nat, n: nat)
    requires period > 0 && Fits(expiration, reference, period, n)
    requires NoneBelow(expiration, reference, period, n)
    ensures n == LeastPeriods(expiration, reference, period)
  {
    MulMono(1, n, period);
    if expiration - period < reference {
      assert Fits(expiration, reference, period, 1);
    } else {
      assert !Fits(expiration, reference, period, n - 1);
      NextSpan(expiration, reference, period, n);
      var x := expiration - reference;
      assert (n - 1) * period <= x < (n - 1) * period + period;
      QuotientIs(x, period, n - 1);
    }
  }

  // ---------------------------------------------------------------------------------
  // Batches
  // ---------------------------------------------------------------------------------

  /** A row's expiration can be met under the launch's own period. */
  ghost predicate Meets(expiration: nat, now: nat, period: nat) {
    expiration >= period > 0 && expiration % period < PastReference(now)
  }

  /** A timing reconstitutes the row it was found for. */
  ghost predicate Times(t: Timing, expiration: nat, now: nat, period: nat) {
    t.buyTime + t.n * period == expiration && t.buyTime < PastReference(now)
  }

  /** Every timing of an accepted batch reconstitutes its row; one bad row, or a differing period, rejects it whole. */
  method AssertBatch(rows: seq<(string, nat)>, now: nat, period: nat, registrationPeriod: nat)
    returns (r: Result<seq<Timing>>)
    requires 0 < period <= MAX_U64
    requires forall i :: 0 <= i < |rows| ==> rows[i].1 <= MAX_U64
    ensures r.Ok? <==>
      (rows == [] || (registrationPeriod == period && forall i :: 0 <= i < |rows| ==> Meets(rows[i].1, now, period)))
    ensures r.Ok? ==> |r.value| == |rows| && forall i :: 0 <= i < |rows| ==> Times(r.value[i], rows[i].1, now, period)
  {
    var timings: seq<Timing> := [];
    for i := 0 to |rows|
      invariant |timings| == i
      invariant i > 0 ==> registrationPeriod == period
      invariant forall j :: 0 <= j < i ==> Meets(rows[j].1, now, period)
      invariant forall j :: 0 <= j < i ==> Times(timings[j], rows[j].1, now, period)
    {
      var t := OneRow(rows[i].1, now, period, registrationPeriod);
      if t.Err? {
        return Err(t.error);
      }
      timings := timings + [t.value];
    }
    return Ok(timings);
  }

  method OneRow(expiration: nat, now: nat, period: nat, registrationPeriod: nat) returns (r: Result<Timing>)
    requires 0 < period <= MAX_U64 && expiration <= MAX_U64
    ensures r.Ok? <==> Meets(expiration, now, period) && registrationPeriod == period
    ensures r.Ok? ==> Times(r.value, expiration, now, period)
  {
    r := PremineBuyTime(expiration, now, period);
    if r.Ok? {
      SamePeriod(r.value, expiration, period, registrationPeriod);
      r := Checked(AssertIntended(r.value.buyTime, r.value.n, expiration, registrationPeriod), r.value);
    }
  }

  lemma SamePeriod(t: Timing, expiration: nat, period: nat, other: nat)
    requires t.n >= 1 && t.buyTime + t.n * period == expiration <= MAX_U64
    ensures AssertIntended(t.buyTime, t.n, expiration, other).Ok? <==> other == period
  {
    if other < period {
      MulStrict(other, period, t.n);
    } else if period < other {
      MulStrict(period, other, t.n);
    }
  }
}
