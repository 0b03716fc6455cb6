/**
 When the premium rises from one second to the next: at the carries of the day's fraction, under a
 condition on the multipliers and the value of the day that settles every second of the auction.
 */
module AuctionCarries {
  import opened Common
  import opened Arithmetic
  import opened AuctionPremium

  // ---------------------------------------------------------------------------------
  // Consecutive fractions
  // ---------------------------------------------------------------------------------

  /** The fraction with digits `h` above a zero and `k` ones below it. */
  function Before(k: nat, h: nat): nat {
    if k == 0 then 2 * h else 2 * Before(k - 1, h) + 1
  }

  /** The fraction after it: the ones are cleared and the zero is set. */
  function After(k: nat, h: nat): nat {
    if k == 0 then 2 * h + 1 else 2 * After(k - 1, h)
  }

  lemma {:induction false} AfterIsNext(k: nat, h: nat)
    ensures After(k, h) == Before(k, h) + 1
  {
    if k > 0 {
      AfterIsNext(k - 1, h);
    }
  }

  /** Multipliers dropped by the carry after a fraction: its trailing ones. */
  function TrailingOnes(f: nat): nat {
    if f % 2 == 0 then 0 else 1 + TrailingOnes(f / 2)
  }

  function DigitsAbove(f: nat): nat {
    if f % 2 == 0 then f / 2 else DigitsAbove(f / 2)
  }

  /** Every fraction has this form. */
  lemma {:induction false} EveryFraction(f: nat)
    ensures f == Before(TrailingOnes(f), DigitsAbove(f))
  {
    if f % 2 == 1 {
      EveryFraction(f / 2);
    }
  }

  lemma {:induction false} OnesBelow(f: nat, n: nat)
    requires f + 1 < Pow2(n)
    ensures TrailingOnes(f) < n
  {
    if f % 2 == 1 {
      OnesBelow(f / 2, n - 1);
    }
  }

  lemma LowestDigit(k: nat, h: nat)
    requires k > 0
    ensures Before(k, h) % 2 == 1 && Before(k, h) / 2 == Before(k - 1, h)
    ensures After(k, h) % 2 == 0 && After(k, h) / 2 == After(k - 1, h)
  {
  }

  lemma {:induction false} PowerForm(k: nat)
    ensures After(k, 0) == Pow2(k)
  {
    if k > 0 {
      PowerForm(k - 1);
    }
  }

  // ---------------------------------------------------------------------------------
  // One carry
  // ---------------------------------------------------------------------------------

  /** The first `k` multipliers applied to a value, each rounded down. */
  function Prefix(x: nat, k: nat, bits: seq<nat>, precision: nat): nat
    requires precision > 0 && k <= |bits|
    decreases k
  {
    if k == 0 then x else Prefix(Scaled(x, bits[0], precision), k - 1, bits[1..], precision)
  }

  /** Before a carry the higher digits are applied to the product of the dropped multipliers. */
  lemma {:induction false} BeforeValue(x: nat, k: nat, h: nat, bits: seq<nat>, precision: nat)
    requires precision > 0 && k < |bits|
    ensures Decayed(x, Before(k, h), bits, precision)
         == Decayed(Prefix(x, k, bits, precision), h, bits[k + 1..], precision)
    decreases k
  {
    if k > 0 {
      assert bits[1..][k..] == bits[k + 1..];
      LowestDigit(k, h);
      BeforeValue(Scaled(x, bits[0], precision), k - 1, h, bits[1..], precision);
    }
  }

  /** After it they are applied to the gained one's. */
  lemma {:induction false} AfterValue(x: nat, k: nat, h: nat, bits: seq<nat>, precision: nat)
    requires precision > 0 && k < |bits|
    ensures Decayed(x, After(k, h), bits, precision)
         == Decayed(Scaled(x, bits[k], precision), h, bits[k + 1..], precision)
    decreases k
  {
    if k > 0 {
      assert bits[1..][k..] == bits[k + 1..];
      LowestDigit(k, h);
      AfterValue(x, k - 1, h, bits[1..], precision);
    }
  }

  lemma {:induction false} AllOnes(x: nat, h: nat, bits: seq<nat>, precision: nat)
    requires precision > 0
    ensures Decayed(x, Before(|bits|, h), bits, precision) == Prefix(x, |bits|, bits, precision)
    decreases |bits|
  {
    if bits != [] {
      LowestDigit(|bits|, h);
      AllOnes(Scaled(x, bits[0], precision), h, bits[1..], precision);
    }
  }

  /** Gaining multiplier `k` and dropping all below it does not raise what exceeds the end value. */
  predicate CarryFalls(x: nat, k: nat, bits: seq<nat>, precision: nat, end: nat)
    requires precision > 0 && k < |bits|
  {
    Scaled(x, bits[k], precision) <= Max(Prefix(x, k, bits, precision), end)
  }

  ghost predicate Falls(x: nat, k: nat, h: nat, bits: seq<nat>, precision: nat, end: nat)
    requires precision > 0
  {
    SatSub(Decayed(x, After(k, h), bits, precision), end) <= SatSub(Decayed(x, Before(k, h), bits, precision), end)
  }

  /**
   A carry out of the lowest `k` digits raises no premium, whatever the higher ones, exactly when it does
   not at zero.
   */
  lemma CarryFallsIff(x: nat, k: nat, bits: seq<nat>, precision: nat, end: nat)
    requires Multipliers(bits, precision) && k < |bits|
    ensures (forall h: nat :: Falls(x, k, h, bits, precision, end)) <==> CarryFalls(x, k, bits, precision, end)
  {
    if CarryFalls(x, k, bits, precision, end) {
      forall h: nat ensures Falls(x, k, h, bits, precision, end) {
        CarryStaysDown(x, k, h, bits, precision, end);
      }
    }
    if Falls(x, k, 0, bits, precision, end) {
      CarryAtZero(x, k, bits, precision, end);
    }
  }

  lemma CarryStaysDown(x: nat, k: nat, h: nat, bits: seq<nat>, precision: nat, end: nat)
    requires Multipliers(bits, precision) && k < |bits| && CarryFalls(x, k, bits, precision, end)
    ensures Falls(x, k, h, bits, precision, end)
  {
    var kept, gained, rest := Prefix(x, k, bits, precision), Scaled(x, bits[k], precision), bits[k + 1..];
    BeforeValue(x, k, h, bits, precision);
    AfterValue(x, k, h, bits, precision);
    if gained <= kept {
      DecayedGrows(gained, kept, h, rest, precision);
    } else {
      assert Multipliers(rest, precision);
      DecayedShrinks(gained, h, rest, precision);
    }
  }

  lemma CarryAtZero(x: nat, k: nat, bits: seq<nat>, precision: nat, end: nat)
    requires precision > 0 && k < |bits|
    ensures Falls(x, k, 0, bits, precision, end) <==> CarryFalls(x, k, bits, precision, end)
  {
    BeforeValue(x, k, 0, bits, precision);
    AfterValue(x, k, 0, bits, precision);
    DecayedAtZero(Prefix(x, k, bits, precision), bits[k + 1..], precision);
    DecayedAtZero(Scaled(x, bits[k], precision), bits[k + 1..], precision);
  }

  // ---------------------------------------------------------------------------------
  // One second
  // ---------------------------------------------------------------------------------

  /** From one second to the next the fraction stays or advances by one, and at midnight restarts from its greatest. */
  lemma NextSecond(elapsed: nat)
    ensures Fraction(elapsed) <= 65_535
    ensures (elapsed + 1) % HALVING_PERIOD != 0 ==>
      && Period(elapsed + 1) == Period(elapsed)
      && Fraction(elapsed) <= Fraction(elapsed + 1) <= Fraction(elapsed) + 1
    ensures (elapsed + 1) % HALVING_PERIOD == 0 ==>
      && Period(elapsed + 1) == Period(elapsed) + 1
      && Fraction(elapsed) == 65_535 && Fraction(elapsed + 1) == 0
  {
  }

  /** The second of day `w` at which the fraction reaches `n`. */
  function Reaches(w: nat, n: nat): nat {
    w * HALVING_PERIOD + (n * HALVING_PERIOD + 65_535) / 65_536
  }

  lemma ReachesAt(w: nat, n: nat)
    requires 0 < n <= 65_535
    ensures Reaches(w, n) > 0
    ensures Period(Reaches(w, n)) == Period(Reaches(w, n) - 1) == w
    ensures Fraction(Reaches(w, n)) == n && Fraction(Reaches(w, n) - 1) == n - 1
  {
    var t := (n * HALVING_PERIOD + 65_535) / 65_536;
    assert 0 < t < HALVING_PERIOD;
    SecondOf(w, t);
    SecondOf(w, t - 1);
  }

  lemma SecondOf(w: nat, t: nat)
    requires t < HALVING_PERIOD
    ensures Period(w * HALVING_PERIOD + t) == w && (w * HALVING_PERIOD + t) % HALVING_PERIOD == t
  {
  }

  // ---------------------------------------------------------------------------------
  // The whole auction
  // ---------------------------------------------------------------------------------

  /** On day `w` no carry raises the premium, and the next day does not start above where it ends. */
  predicate DayFalls(p: Pricing, w: nat)
    requires p.precision > 0 && |p.bits| == 16
  {
    var x := Shifted(p.start, w);
    && (forall k: nat | k < 16 :: CarryFalls(x, k, p.bits, p.precision, p.end))
    && (w < 27 ==> Shifted(p.start, w + 1) <= Max(Prefix(x, 16, p.bits, p.precision), p.end))
  }

  lemma SixteenOnes()
    ensures Before(16, 0) == 65_535 && Pow2(16) == 65_536
  {
    assert Before(4, 0) == 15;
    assert Before(8, 0) == 255;
    assert Before(12, 0) == 4095;
    assert Pow2(4) == 16;
    assert Pow2(8) == 256;
    assert Pow2(12) == 4096;
  }

  lemma MidnightValues(p: Pricing, elapsed: nat)
    requires Fixed(p) && (elapsed + 1) % HALVING_PERIOD == 0
    ensures Value(p, elapsed) == Prefix(Shifted(p.start, Period(elapsed)), 16, p.bits, p.precision)
    ensures Value(p, elapsed + 1) == Shifted(p.start, Period(elapsed) + 1)
  {
    NextSecond(elapsed);
    SixteenOnes();
    AllOnes(Shifted(p.start, Period(elapsed)), 0, p.bits, p.precision);
    DecayedAtZero(Shifted(p.start, Period(elapsed) + 1), p.bits, p.precision);
  }

  lemma CarryOf(elapsed: nat)
    requires (elapsed + 1) % HALVING_PERIOD != 0 && Fraction(elapsed + 1) != Fraction(elapsed)
    ensures
      var f := Fraction(elapsed);
      && TrailingOnes(f) < 16
      && f == Before(TrailingOnes(f), DigitsAbove(f))
      && Fraction(elapsed + 1) == After(TrailingOnes(f), DigitsAbove(f))
  {
    var f := Fraction(elapsed);
    NextSecond(elapsed);
    NextSecond(elapsed + 1);
    SixteenOnes();
    OnesBelow(f, 16);
    EveryFraction(f);
    AfterIsNext(TrailingOnes(f), DigitsAbove(f));
  }

  lemma SecondFalls(p: Pricing, elapsed: nat)
    requires Fixed(p) && elapsed + 1 < AUCTION_DURATION && DayFalls(p, Period(elapsed))
    ensures SatSub(Value(p, elapsed + 1), p.end) <= SatSub(Value(p, elapsed), p.end)
  {
    NextSecond(elapsed);
    if (elapsed + 1) % HALVING_PERIOD == 0 {
      MidnightValues(p, elapsed);
    } else if Fraction(elapsed + 1) != Fraction(elapsed) {
      var f := Fraction(elapsed);
      CarryOf(elapsed);
      CarryStaysDown(Shifted(p.start, Period(elapsed)), TrailingOnes(f), DigitsAbove(f), p.bits, p.precision, p.end);
    }
  }

  ghost predicate NeverRises(p: Pricing, expiration: nat)
    requires p.precision > 0
  {
    forall a: nat, b: nat :: expiration <= a <= b ==> Premium(p, expiration, b) <= Premium(p, expiration, a)
  }

  lemma {:induction false} FallsOver(p: Pricing, expiration: nat, a: nat, b: nat)
    requires Fixed(p) && expiration <= a <= b && forall w: nat | w < 28 :: DayFalls(p, w)
    ensures Premium(p, expiration, b) <= Premium(p, expiration, a)
    decreases b - a
  {
    if a < b {
      FallsOver(p, expiration, a, b - 1);
      PremiumStep(p, expiration, b - 1);
    }
  }

  lemma PremiumStep(p: Pricing, expiration: nat, t: nat)
    requires Fixed(p) && expiration <= t && forall w: nat | w < 28 :: DayFalls(p, w)
    ensures Premium(p, expiration, t + 1) <= Premium(p, expiration, t)
  {
    if t + 1 - expiration < AUCTION_DURATION {
      DayBound(t - expiration);
      SecondFalls(p, t - expiration);
    }
  }

  lemma DayBound(elapsed: nat)
    requires elapsed < AUCTION_DURATION
    ensures Period(elapsed) < 28
  {
  }

  lemma RisesAtCarry(p: Pricing, expiration: nat, w: nat, k: nat)
    requires Fixed(p) && w < 28 && k < 16 && NeverRises(p, expiration)
    ensures CarryFalls(Shifted(p.start, w), k, p.bits, p.precision, p.end)
  {
    var n := Pow2(k);
    PowerForm(k);
    AfterIsNext(k, 0);
    PowerBound(k);
    ReachesAt(w, n);
    var t := expiration + Reaches(w, n);
    assert Premium(p, expiration, t) <= Premium(p, expiration, t - 1);
    CarryAtZero(Shifted(p.start, w), k, p.bits, p.precision, p.end);
  }

  lemma {:induction false} PowerBound(k: nat)
    requires k < 16
    ensures Pow2(k) <= 32_768
    decreases 16 - k
  {
    SixteenOnes();
    if k < 15 {
      PowerBound(k + 1);
    }
  }

  lemma RisesAtMidnight(p: Pricing, expiration: nat, w: nat)
    requires Fixed(p) && w < 27 && NeverRises(p, expiration)
    ensures Shifted(p.start, w + 1) <= Max(Prefix(Shifted(p.start, w), 16, p.bits, p.precision), p.end)
  {
    var elapsed := LastSecond(w);
    LastSecondOf(w);
    MidnightValues(p, elapsed);
    var t := expiration + elapsed;
    assert Premium(p, expiration, t + 1) <= Premium(p, expiration, t);
  }

  function LastSecond(w: nat): nat {
    w * HALVING_PERIOD + 86_399
  }

  lemma LastSecondOf(w: nat)
    ensures Period(LastSecond(w)) == w && (LastSecond(w) + 1) % HALVING_PERIOD == 0
    ensures w < 27 ==> LastSecond(w) + 1 < AUCTION_DURATION
  {
    SecondOf(w, 86_399);
    SecondOf(w + 1, 0);
  }

  /**
   The premium of an auction never rises exactly when none of its sixteen carries and midnights raises
   it on any of the twenty-eight days, which the pricing alone decides.
   */
  lemma PremiumNeverRisesIff(p: Pricing, expiration: nat)
    requires Fixed(p)
    ensures NeverRises(p, expiration) <==> forall w: nat | w < 28 :: DayFalls(p, w)
  {
    if NeverRises(p, expiration) {
      forall w: nat | w < 28 ensures DayFalls(p, w) {
        forall k: nat | k < 16 ensures CarryFalls(Shifted(p.start, w), k, p.bits, p.precision, p.end) {
          RisesAtCarry(p, expiration, w, k);
        }
        if w < 27 {
          RisesAtMidnight(p, expiration, w);
        }
      }
    }
    if forall w: nat | w < 28 :: DayFalls(p, w) {
      forall a: nat, b: nat | expiration <= a <= b ensures Premium(p, expiration, b) <= Premium(p, expiration, a) {
        FallsOver(p, expiration, a, b);
      }
    }
  }

  // ---------------------------------------------------------------------------------
  // Where it rises, and by how much
  // ---------------------------------------------------------------------------------

  /** A multiplier just below one takes exactly one unit off a value it cannot take two from. */
  lemma TakesOne(x: nat, b: nat, precision: nat)
    requires 0 < b < precision && x > 0 && x * (precision - b) <= precision
    ensures Scaled(x, b, precision) == x - 1
  {
    SplitProduct(x, b, precision);
    StepUp(x - 1, precision);
    MulMono(1, precision - b, x);
    QuotientIs(x * b, precision, x - 1);
  }

  lemma SplitProduct(x: nat, b: nat, precision: nat)
    requires b <= precision
    ensures x * b + x * (precision - b) == x * precision
  {
  }

  /** The first three multipliers each take one unit off the day's value. */
  predicate OneEach(x: nat, p: Pricing)
    requires |p.bits| == 16
  {
    forall i: nat | i < 3 :: 0 < p.bits[i] < p.precision && x * (p.precision - p.bits[i]) <= p.precision
  }

  lemma OneEachLess(x: nat, b: nat, precision: nat)
    requires b <= precision && x > 0 && x * (precision - b) <= precision
    ensures (x - 1) * (precision - b) <= precision
  {
    MulMono(x - 1, x, precision - b);
  }

  lemma ThirdCarry(x: nat, p: Pricing)
    requires Fixed(p) && x >= 2 && OneEach(x, p)
    ensures Decayed(x, 3, p.bits, p.precision) == x - 2 && Decayed(x, 4, p.bits, p.precision) == x - 1
  {
    TakesOne(x, p.bits[0], p.precision);
    OneEachLess(x, p.bits[1], p.precision);
    TakesOne(x - 1, p.bits[1], p.precision);
    TakesOne(x, p.bits[2], p.precision);
    assert Before(2, 0) == 3 && After(2, 0) == 4;
    BeforeValue(x, 2, 0, p.bits, p.precision);
    AfterValue(x, 2, 0, p.bits, p.precision);
    TwoPrefix(x, p.bits, p.precision);
    DecayedAtZero(x - 2, p.bits[3..], p.precision);
    DecayedAtZero(x - 1, p.bits[3..], p.precision);
  }

  lemma TwoPrefix(x: nat, bits: seq<nat>, precision: nat)
    requires precision > 0 && |bits| >= 2
    ensures Prefix(x, 2, bits, precision) == Scaled(Scaled(x, bits[0], precision), bits[1], precision)
  {
    assert bits[1..][0] == bits[1];
  }

  lemma LowFractions(w: nat)
    ensures Period(w * HALVING_PERIOD + 4) == Period(w * HALVING_PERIOD + 6) == w
    ensures Fraction(w * HALVING_PERIOD + 4) == 3 && Fraction(w * HALVING_PERIOD + 6) == 4
  {
    SecondOf(w, 4);
    SecondOf(w, 6);
  }

  lemma LowDayValues(p: Pricing, w: nat)
    requires Fixed(p) && Shifted(p.start, w) >= 2 && OneEach(Shifted(p.start, w), p)
    ensures Value(p, w * HALVING_PERIOD + 4) == Shifted(p.start, w) - 2
    ensures Value(p, w * HALVING_PERIOD + 6) == Shifted(p.start, w) - 1
  {
    LowFractions(w);
    ThirdCarry(Shifted(p.start, w), p);
  }

  /**
   On every day that starts at a value so small that the three lowest multipliers each take one unit,
   the premium is one unit dearer at the sixth second than at the fourth.
   */
  lemma LowDaysRise(p: Pricing, expiration: nat, w: nat)
    requires Fixed(p) && w < 28 && Shifted(p.start, w) >= 2 && OneEach(Shifted(p.start, w), p)
    ensures Value(p, w * HALVING_PERIOD + 6) == Value(p, w * HALVING_PERIOD + 4) + 1
    ensures
      var t := expiration + w * HALVING_PERIOD;
      p.end <= Shifted(p.start, w) - 2 ==>
        Premium(p, expiration, t + 6) == Premium(p, expiration, t + 4) + 1
  {
    var start := w * HALVING_PERIOD;
    assert start + 6 < AUCTION_DURATION;
    LowDayValues(p, w);
  }

  lemma {:induction false} OnesAreSet(k: nat, n: nat)
    requires k <= n
    ensures SetBits(Before(k, 0), n) == k
  {
    if k > 0 {
      OnesAreSet(k - 1, n - 1);
    } else {
      NoneSet(n);
    }
  }

  lemma {:induction false} NoneSet(n: nat)
    ensures SetBits(0, n) == 0
  {
    if n > 0 {
      NoneSet(n - 1);
    }
  }

  /** Adding units to a value adds at most as many after any multipliers. */
  lemma {:induction false} DecayedAddsAtMost(x: nat, k: nat, f: nat, bits: seq<nat>, precision: nat)
    requires Multipliers(bits, precision)
    ensures Decayed(x + k, f, bits, precision) <= Decayed(x, f, bits, precision) + k
    decreases |bits|
  {
    if bits != [] {
      assert Multipliers(bits[1..], precision);
      if f % 2 == 1 {
        var y := Scaled(x, bits[0], precision);
        ScaledAddsAtMost(x, k, bits[0], precision);
        DecayedGrows(Scaled(x + k, bits[0], precision), y + k, f / 2, bits[1..], precision);
        DecayedAddsAtMost(y, k, f / 2, bits[1..], precision);
      } else {
        DecayedAddsAtMost(x, k, f / 2, bits[1..], precision);
      }
    }
  }

  lemma ScaledAddsAtMost(x: nat, k: nat, b: nat, precision: nat)
    requires 0 < b <= precision
    ensures Scaled(x + k, b, precision) <= Scaled(x, b, precision) + k
  {
    var q := Scaled(x, b, precision);
    assert x * b < (q + 1) * precision;
    assert (x + k) * b == x * b + k * b;
    MulMono(b, precision, k);
    assert (q + k + 1) * precision == (q + 1) * precision + k * precision;
    QuotientBelow((x + k) * b, precision, q + k + 1);
  }

  /** The gained multiplier is at most the exact product of the dropped ones: it regains at most what rounding took. */
  lemma GainedAtMost(p: Pricing, x: nat, k: nat)
    requires Fixed(p) && Smooth(p) && k < 16
    ensures Scaled(x, p.bits[k], p.precision) <= Prefix(x, k, p.bits, p.precision) + k
  {
    var f, g := Before(k, 0), After(k, 0);
    AfterIsNext(k, 0);
    PowerForm(k);
    PowerBound(k);
    BeforeValue(x, k, 0, p.bits, p.precision);
    AfterValue(x, k, 0, p.bits, p.precision);
    DecayedAtZero(Prefix(x, k, p.bits, p.precision), p.bits[k + 1..], p.precision);
    DecayedAtZero(Scaled(x, p.bits[k], p.precision), p.bits[k + 1..], p.precision);
    DecayedBracket(x, x as real, 0, f, p.bits, p.precision);
    DecayedBracket(x, x as real, 0, g, p.bits, p.precision);
    ProductsOrdered(p, x, f, x, g);
    OnesAreSet(k, 16);
  }

  /**
   For multipliers that decay smoothly, what a second adds back is at most the number of multipliers
   its carry drops.
   */
  lemma RiseAtMostDropped(p: Pricing, elapsed: nat)
    requires Fixed(p) && Smooth(p)
    ensures Value(p, elapsed + 1) <= Value(p, elapsed) + TrailingOnes(Fraction(elapsed))
  {
    var x, f := Shifted(p.start, Period(elapsed)), Fraction(elapsed);
    NextSecond(elapsed);
    if (elapsed + 1) % HALVING_PERIOD == 0 {
      SixteenOnes();
      OnesOfAll();
      NearlyNeverRises(p, elapsed, elapsed + 1);
    } else if Fraction(elapsed + 1) != f {
      CarryOf(elapsed);
      CarryAddsAtMost(p, x, TrailingOnes(f), DigitsAbove(f));
    }
  }

  lemma OnesOfAll()
    ensures TrailingOnes(65_535) == 16
  {
    assert TrailingOnes(0) == 0;
    assert TrailingOnes(15) == 4;
    assert TrailingOnes(255) == 8;
    assert TrailingOnes(4095) == 12;
  }

  lemma CarryAddsAtMost(p: Pricing, x: nat, k: nat, h: nat)
    requires Fixed(p) && Smooth(p) && k < 16
    ensures Decayed(x, After(k, h), p.bits, p.precision) <= Decayed(x, Before(k, h), p.bits, p.precision) + k
  {
    var kept, gained, rest := Prefix(x, k, p.bits, p.precision), Scaled(x, p.bits[k], p.precision), p.bits[k + 1..];
    assert Multipliers(rest, p.precision);
    GainedAtMost(p, x, k);
    BeforeValue(x, k, h, p.bits, p.precision);
    AfterValue(x, k, h, p.bits, p.precision);
    DecayedGrows(gained, kept + k, h, rest, p.precision);
    DecayedAddsAtMost(kept, k, h, rest, p.precision);
  }
}
