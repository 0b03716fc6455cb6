/**
 The expiration-auction premium: a start value halved once a day, with the fraction of the current day
 applied as up to sixteen fixed-point multipliers, each rounded down before the next.
 */
module AuctionPremium {
  import opened Common
  import opened Arithmetic

  const HALVING_PERIOD: nat := 86_400
  const AUCTION_DURATION: nat := 28 * 86_400
  const FRACTIONS: nat := 65_536

  /** Start premium, end value, multipliers and their precision, as the pricing puzzle fixes them. */
  datatype Pricing = Pricing(start: nat, end: nat, bits: seq<nat>, precision: nat)

  ghost predicate Multipliers(bits: seq<nat>, precision: nat) {
    0 < precision && forall i :: 0 <= i < |bits| ==> 0 < bits[i] <= precision
  }

  ghost predicate Fixed(p: Pricing) {
    |p.bits| == 16 && Multipliers(p.bits, p.precision) && p.start <= MAX_U64 && p.precision <= MAX_U64
  }

  function Pow2(n: nat): (r: nat)
    ensures r > 0
  {
    if n == 0 then 1 else 2 * Pow2(n - 1)
  }

  /** Halved a number of times, rounding down each time. */
  function Shifted(x: nat, times: nat): (r: nat)
    ensures r <= x
  {
    if times == 0 then x else Shifted(x, times - 1) / 2
  }

  function AsU128(x: nat): nat {
    x % 0x1_0000_0000_0000_0000_0000_0000_0000_0000
  }

  function Period(elapsed: nat): nat {
    elapsed / HALVING_PERIOD
  }

  /** Sixty-five-thousandths of the current day, rounded down; its binary digits select multipliers. */
  function Fraction(elapsed: nat): nat {
    65_536 * (elapsed % HALVING_PERIOD) / HALVING_PERIOD
  }

  /** One multiplier applied to a premium, rounded down. */
  function Scaled(x: nat, b: nat, precision: nat): nat
    requires precision > 0
  {
    x * b / precision
  }

  /** The multipliers selected by the digits of `f`, lowest first, each rounded down. */
  function Decayed(x: nat, f: nat, bits: seq<nat>, precision: nat): nat
    requires precision > 0
    decreases |bits|
  {
    if bits == [] then x
    else Decayed(if f % 2 == 1 then Scaled(x, bits[0], precision) else x, f / 2, bits[1..], precision)
  }

  /** The premium before the end value is taken off. */
  function Value(p: Pricing, elapsed: nat): nat
    requires p.precision > 0
  {
    Decayed(Shifted(p.start, Period(elapsed)), Fraction(elapsed), p.bits, p.precision)
  }

  /** The premium of a sale at `buyTime`. */
  function Premium(p: Pricing, expiration: nat, buyTime: nat): nat
    requires p.precision > 0
  {
    if buyTime < expiration || buyTime - expiration >= AUCTION_DURATION then 0
    else SatSub(Value(p, buyTime - expiration), p.end)
  }

  function ReachesBaseAt(expiration: nat): nat {
    SatAdd64(expiration, AUCTION_DURATION)
  }

  // ---------------------------------------------------------------------------------
  // The loop, in machine integers
  // ---------------------------------------------------------------------------------

  lemma Pow2Small(n: nat)
    requires n <= 28
    ensures Pow2(n) <= 0x1000_0000
    decreases 28 - n
  {
    if n == 28 {
      assert Pow2(4) == 16;
      assert Pow2(8) == 256;
      assert Pow2(12) == 4096;
      assert Pow2(16) == 65_536;
      assert Pow2(20) == 0x10_0000;
      assert Pow2(24) == 0x100_0000;
    } else {
      Pow2Small(n + 1);
    }
  }

  lemma ScaledShrinks(x: nat, b: nat, precision: nat)
    requires 0 < b <= precision
    ensures Scaled(x, b, precision) <= x
  {
    MulMono(b, precision, x);
    QuotientMono(x * b, x * precision, precision);
    QuotientIs(x * precision, precision, x);
  }

  lemma ProductFits(x: nat, b: nat)
    requires x <= MAX_U64 && b <= MAX_U64
    ensures AsU128(x * b) == x * b
  {
    assert x * b <= MAX_U64 * b <= MAX_U64 * MAX_U64;
  }

  lemma HalvedTwice(f: nat, acc: nat)
    requires acc > 0
    ensures (f / acc) / 2 == f / (2 * acc)
  {
    var q := f / (2 * acc);
    var r := f - q * (2 * acc);
    assert f == (2 * q) * acc + r && 0 <= r < 2 * acc;
    if r < acc {
      QuotientIs(f, acc, 2 * q);
    } else {
      QuotientIs(f, acc, 2 * q + 1);
    }
  }

  /** Halving repeatedly is dividing by the power of two. */
  lemma {:induction false} ShiftDivides(x: nat, times: nat)
    ensures Shifted(x, times) == x / Pow2(times)
  {
    if times > 0 {
      ShiftDivides(x, times - 1);
      HalvedTwice(x, Pow2(times - 1));
    }
  }

  /** The widened product and the cast back lose nothing. */
  lemma CastsFit(premium: nat, bit: nat, precision: nat)
    requires premium <= MAX_U64 && precision <= MAX_U64 && 0 < bit <= precision
    ensures AsU64(AsU128(premium * bit) / precision) == Scaled(premium, bit, precision) <= MAX_U64
  {
    ProductFits(premium, bit);
    ScaledShrinks(premium, bit, precision);
  }

  /** Testing digit `i` of the fraction is taking the next step of the product. */
  lemma DigitStep(premium: nat, f: nat, i: nat, bits: seq<nat>, precision: nat)
    requires precision > 0 && i < |bits|
    ensures Decayed(premium, Shifted(f, i), bits[i..], precision)
         == Decayed(if Shifted(f, i) % 2 == 1 then Scaled(premium, bits[i], precision) else premium,
                    Shifted(f, i + 1), bits[i + 1..], precision)
  {
    assert bits[i..][0] == bits[i] && bits[i..][1..] == bits[i + 1..];
  }

  lemma ShiftFits(start: nat, elapsed: nat)
    requires start <= MAX_U64 && elapsed < AUCTION_DURATION
    ensures AsU64(Pow2(elapsed / HALVING_PERIOD)) == Pow2(Period(elapsed)) > 0
    ensures AsU64(65_536 * (elapsed % HALVING_PERIOD)) / HALVING_PERIOD == Fraction(elapsed)
    ensures start / Pow2(Period(elapsed)) == Shifted(start, Period(elapsed))
  {
    Pow2Small(Period(elapsed));
    ShiftDivides(start, Period(elapsed));
  }

  lemma DoubleFits(i: nat)
    requires i < 28
    ensures AsU64(2 * Pow2(i)) == Pow2(i + 1)
  {
    Pow2Small(i + 1);
  }

  /** One multiplication widened to 128 bits, divided and cast back. */
  method Scale(premium: nat, bit: nat, precision: nat) returns (r: nat)
    requires premium <= MAX_U64 && precision <= MAX_U64 && 0 < bit <= precision
    ensures r == Scaled(premium, bit, precision) <= MAX_U64
  {
    CastsFit(premium, bit, precision);
    r := AsU64(AsU128(premium * bit) / precision);
  }

  /** The loop over the digits, lowest first: no product or cast truncates. */
  method Apply(start: nat, fractionPart: nat, bits: seq<nat>, precision: nat) returns (premium: nat)
    requires start <= MAX_U64 && precision <= MAX_U64 && |bits| <= 28 && Multipliers(bits, precision)
    ensures premium == Decayed(start, fractionPart, bits, precision)
  {
    premium := start;
    var acc := 1;
    for i := 0 to |bits|
      invariant acc == Pow2(i) && premium <= MAX_U64
      invariant Decayed(start, fractionPart, bits, precision)
           == Decayed(premium, Shifted(fractionPart, i), bits[i..], precision)
    {
      DigitStep(premium, fractionPart, i, bits, precision);
      ShiftDivides(fractionPart, i);
      DoubleFits(i);
      if fractionPart / acc % 2 == 1 {
        premium := Scale(premium, bits[i], precision);
      }
      acc := AsU64(2 * acc);
    }
  }

  /** No shift of the start value truncates either. */
  method PremiumAfterElapsed(p: Pricing, elapsed: nat) returns (premium: nat)
    requires Fixed(p) && elapsed < AUCTION_DURATION
    ensures premium == SatSub(Value(p, elapsed), p.end)
  {
    ShiftFits(p.start, elapsed);
    var fractionPart := AsU64(65_536 * (elapsed % HALVING_PERIOD)) / HALVING_PERIOD;
    premium := p.start / AsU64(Pow2(elapsed / HALVING_PERIOD));
    premium := Apply(premium, fractionPart, p.bits, p.precision);
    premium := SatSub(premium, p.end);
  }

  method AuctionPremium(p: Pricing, expiration: nat, buyTime: nat) returns (premium: nat)
    requires Fixed(p)
    ensures premium == Premium(p, expiration, buyTime)
  {
    if buyTime < expiration {
      return 0;
    }
    var elapsed := buyTime - expiration;
    if elapsed >= AUCTION_DURATION {
      return 0;
    }
    premium := PremiumAfterElapsed(p, elapsed);
  }

  // ---------------------------------------------------------------------------------
  // Halving
  // ---------------------------------------------------------------------------------

  lemma ScaledSuperadds(a: nat, c: nat, b: nat, precision: nat)
    requires precision > 0
    ensures Scaled(a, b, precision) + Scaled(c, b, precision) <= Scaled(a + c, b, precision)
  {
    var qa, qc, q := Scaled(a, b, precision), Scaled(c, b, precision), Scaled(a + c, b, precision);
    assert qa * precision <= a * b && qc * precision <= c * b;
    assert (a + c) * b == a * b + c * b;
    assert (qa + qc) * precision == qa * precision + qc * precision;
    QuotientMono((qa + qc) * precision, (a + c) * b, precision);
    QuotientIs((qa + qc) * precision, precision, qa + qc);
  }

  /** Rounding down at every step never makes two parts worth more than their sum. */
  lemma {:induction false} DecayedSuperadds(a: nat, c: nat, f: nat, bits: seq<nat>, precision: nat)
    requires precision > 0
    ensures Decayed(a, f, bits, precision) + Decayed(c, f, bits, precision) <= Decayed(a + c, f, bits, precision)
    decreases |bits|
  {
    if bits != [] {
      if f % 2 == 1 {
        var a', c' := Scaled(a, bits[0], precision), Scaled(c, bits[0], precision);
        DecayedSuperadds(a', c', f / 2, bits[1..], precision);
        ScaledSuperadds(a, c, bits[0], precision);
        DecayedGrows(a' + c', Scaled(a + c, bits[0], precision), f / 2, bits[1..], precision);
      } else {
        DecayedSuperadds(a, c, f / 2, bits[1..], precision);
      }
    }
  }

  lemma {:induction false} DecayedGrows(a: nat, c: nat, f: nat, bits: seq<nat>, precision: nat)
    requires precision > 0 && a <= c
    ensures Decayed(a, f, bits, precision) <= Decayed(c, f, bits, precision)
    decreases |bits|
  {
    if bits != [] {
      if f % 2 == 1 {
        ScaledSuperadds(a, c - a, bits[0], precision);
        DecayedGrows(Scaled(a, bits[0], precision), Scaled(c, bits[0], precision), f / 2, bits[1..], precision);
      } else {
        DecayedGrows(a, c, f / 2, bits[1..], precision);
      }
    }
  }

  lemma {:induction false} DecayedShrinks(x: nat, f: nat, bits: seq<nat>, precision: nat)
    requires Multipliers(bits, precision)
    ensures Decayed(x, f, bits, precision) <= x
    decreases |bits|
  {
    if bits != [] {
      assert Multipliers(bits[1..], precision);
      ScaledShrinks(x, bits[0], precision);
      DecayedShrinks(if f % 2 == 1 then Scaled(x, bits[0], precision) else x, f / 2, bits[1..], precision);
    }
  }

  /** One day later the value has at least halved, at any moment and for any start. */
  lemma DayHalvesValue(p: Pricing, elapsed: nat)
    requires p.precision > 0
    ensures 2 * Value(p, elapsed + HALVING_PERIOD) <= Value(p, elapsed)
  {
    var w, f := Period(elapsed), Fraction(elapsed);
    var x := Shifted(p.start, w);
    assert Period(elapsed + HALVING_PERIOD) == w + 1 && Fraction(elapsed + HALVING_PERIOD) == f;
    DecayedSuperadds(x / 2, x / 2, f, p.bits, p.precision);
    DecayedGrows(x / 2 + x / 2, x, f, p.bits, p.precision);
  }

  /** The same for the premium a buyer pays, at every time from expiration on. */
  lemma DayHalvesPremium(p: Pricing, expiration: nat, buyTime: nat)
    requires p.precision > 0 && expiration <= buyTime
    ensures 2 * Premium(p, expiration, buyTime + HALVING_PERIOD) <= Premium(p, expiration, buyTime)
  {
    DayHalvesValue(p, buyTime - expiration);
  }

  /** The premium stays between zero and what it is at the moment of expiration. */
  lemma PremiumBounded(p: Pricing, expiration: nat, buyTime: nat)
    requires Fixed(p)
    ensures Premium(p, expiration, buyTime) <= SatSub(p.start, p.end)
    ensures Premium(p, expiration, expiration) == SatSub(p.start, p.end)
  {
    DecayedAtZero(p.start, p.bits, p.precision);
    if buyTime >= expiration {
      var elapsed := buyTime - expiration;
      var x := Shifted(p.start, Period(elapsed));
      DecayedShrinks(x, Fraction(elapsed), p.bits, p.precision);
    }
  }

  lemma {:induction false} DecayedAtZero(x: nat, bits: seq<nat>, precision: nat)
    requires precision > 0
    ensures Decayed(x, 0, bits, precision) == x
    decreases |bits|
  {
    if bits != [] {
      DecayedAtZero(x, bits[1..], precision);
    }
  }

  /** The announced time ends the premium for good whenever it did not saturate. */
  lemma BaseReached(p: Pricing, expiration: nat, buyTime: nat)
    requires p.precision > 0 && expiration + AUCTION_DURATION <= MAX_U64 && ReachesBaseAt(expiration) <= buyTime
    ensures Premium(p, expiration, buyTime) == 0
  {
  }

  /**
   A time that saturates is the last representable second. There the premium is gone at least when the
   whole days alone have brought the start down to the end value.
   */
  lemma SaturatedBaseReached(p: Pricing, expiration: nat)
    requires Fixed(p) && MAX_U64 - AUCTION_DURATION < expiration <= MAX_U64
    ensures ReachesBaseAt(expiration) == MAX_U64
    ensures Shifted(p.start, Period(MAX_U64 - expiration)) <= p.end ==> Premium(p, expiration, MAX_U64) == 0
  {
    var elapsed := MAX_U64 - expiration;
    DecayedShrinks(Shifted(p.start, Period(elapsed)), Fraction(elapsed), p.bits, p.precision);
  }

  /**
   It need not be gone: a handle that expires at the last second is announced free then and costs the
   full premium.
   */
  lemma BaseNotReached(p: Pricing)
    requires Fixed(p) && p.end < p.start
    ensures ReachesBaseAt(MAX_U64) == MAX_U64 && Premium(p, MAX_U64, MAX_U64) == p.start - p.end > 0
  {
    PremiumBounded(p, MAX_U64, MAX_U64);
  }

  /** A pricing whose multipliers take nothing off, with enough start to outlast 27 halvings. */
  function Undecaying(): Pricing {
    Pricing(0x1000_0000, 0, seq(16, _ => 1), 1)
  }

  lemma {:induction false} DecayedByOne(x: nat, f: nat, bits: seq<nat>)
    requires forall i :: 0 <= i < |bits| ==> bits[i] == 1
    ensures Decayed(x, f, bits, 1) == x
    decreases |bits|
  {
    if bits != [] {
      QuotientIs(x * 1, 1, x);
      DecayedByOne(x, f / 2, bits[1..]);
    }
  }

  lemma UndecayingPays(expiration: nat)
    requires MAX_U64 - AUCTION_DURATION < expiration <= MAX_U64
    ensures Fixed(Undecaying()) && Premium(Undecaying(), expiration, MAX_U64) > 0
  {
    UndecayingValue(MAX_U64 - expiration);
  }

  lemma UndecayingValue(elapsed: nat)
    requires elapsed < AUCTION_DURATION
    ensures Value(Undecaying(), elapsed) > 0
  {
    var p := Undecaying();
    Pow2Small(Period(elapsed));
    ShiftLeaves(p.start, Period(elapsed));
    DecayedByOne(Shifted(p.start, Period(elapsed)), Fraction(elapsed), p.bits);
  }

  lemma ShiftLeaves(x: nat, times: nat)
    requires Pow2(times) <= x
    ensures Shifted(x, times) >= 1
  {
    var d := Pow2(times);
    ShiftDivides(x, times);
    QuotientMono(d, x, d);
    QuotientIs(d, d, 1);
  }

  /** Under every pricing the premium is gone at the announced time exactly when that time did not saturate. */
  lemma BaseReachedIff(expiration: nat)
    requires expiration <= MAX_U64
    ensures (forall p: Pricing | Fixed(p) :: Premium(p, expiration, ReachesBaseAt(expiration)) == 0)
       <==> expiration + AUCTION_DURATION <= MAX_U64
  {
    if expiration + AUCTION_DURATION > MAX_U64 {
      UndecayingPays(expiration);
    }
  }

  // ---------------------------------------------------------------------------------
  // Rounding
  // ---------------------------------------------------------------------------------

  ghost function Ratio(b: nat, precision: nat): real
    requires precision > 0
  {
    b as real / precision as real
  }

  /** The exact product of the selected multipliers. */
  ghost function Factor(f: nat, bits: seq<nat>, precision: nat): real
    requires precision > 0
    decreases |bits|
  {
    if bits == [] then 1.0
    else if f % 2 == 1 then Ratio(bits[0], precision) * Factor(f / 2, bits[1..], precision)
    else Factor(f / 2, bits[1..], precision)
  }

  ghost function Exact(y: real, f: nat, bits: seq<nat>, precision: nat): real
    requires precision > 0
    decreases |bits|
  {
    if bits == [] then y
    else Exact(if f % 2 == 1 then y * Ratio(bits[0], precision) else y, f / 2, bits[1..], precision)
  }

  function SetBits(f: nat, n: nat): (r: nat)
    ensures r <= n
  {
    if n == 0 then 0 else f % 2 + SetBits(f / 2, n - 1)
  }

  lemma ScaledBracket(x: nat, y: real, k: nat, b: nat, precision: nat)
    requires 0 < b <= precision && x as real <= y <= x as real + k as real
    ensures Scaled(x, b, precision) as real <= y * Ratio(b, precision)
    ensures y * Ratio(b, precision) <= Scaled(x, b, precision) as real + (k + 1) as real
  {
    var c, q := Ratio(b, precision), Scaled(x, b, precision);
    RatioOfQuotient(x, b, precision);
    var d := y - x as real;
    ScaleDown(d, c);
    Distribute(x as real, d, c);
    assert y == x as real + d;
  }

  /** The rounded product lies at most one below the exact one. */
  lemma RatioOfQuotient(x: nat, b: nat, precision: nat)
    requires 0 < b <= precision
    ensures 0.0 < Ratio(b, precision) <= 1.0
    ensures Scaled(x, b, precision) as real <= x as real * Ratio(b, precision)
    ensures x as real * Ratio(b, precision) <= Scaled(x, b, precision) as real + 1.0
  {
    var q := Scaled(x, b, precision);
    assert q * precision <= x * b < q * precision + precision;
    RatioCompares(q, x, b, precision);
    StepUp(q, precision);
    RatioCompares(q + 1, x, b, precision);
  }

  lemma StepUp(q: nat, d: nat)
    ensures (q + 1) * d == q * d + d
  {
  }

  lemma RatioCompares(q: nat, x: nat, b: nat, precision: nat)
    requires 0 < b <= precision
    ensures 0.0 < Ratio(b, precision) <= 1.0
    ensures q * precision <= x * b ==> q as real <= x as real * Ratio(b, precision)
    ensures x * b <= q * precision ==> x as real * Ratio(b, precision) <= q as real
  {
    var c, p := Ratio(b, precision), precision as real;
    UnitRatio(b as real, p);
    CastProduct(q, precision);
    CastProduct(x, b);
    Reassoc(x as real, c, p);
    var xc := x as real * c;
    if q * precision <= x * b {
      CancelPositive(q as real, xc, p);
    }
    if x * b <= q * precision {
      CancelPositive(xc, q as real, p);
    }
  }

  lemma CastProduct(a: nat, b: nat)
    ensures (a * b) as real == a as real * b as real
  {
  }

  lemma UnitRatio(b: real, p: real)
    requires 0.0 < b <= p
    ensures 0.0 < b / p <= 1.0 && (b / p) * p == b
  {
  }

  lemma Reassoc(x: real, c: real, p: real)
    ensures (x * c) * p == x * (c * p)
  {
  }

  lemma CancelPositive(a: real, b: real, p: real)
    requires p > 0.0 && a * p <= b * p
    ensures a <= b
  {
  }

  lemma Distribute(x: real, d: real, c: real)
    ensures (x + d) * c == x * c + d * c
  {
  }

  lemma ScaleDown(d: real, c: real)
    requires d >= 0.0 && 0.0 <= c <= 1.0
    ensures 0.0 <= d * c <= d
  {
  }

  lemma {:induction false} DecayedBracket(x: nat, y: real, k: nat, f: nat, bits: seq<nat>, precision: nat)
    requires Multipliers(bits, precision) && x as real <= y <= x as real + k as real
    ensures Decayed(x, f, bits, precision) as real <= Exact(y, f, bits, precision)
    ensures Exact(y, f, bits, precision) <= Decayed(x, f, bits, precision) as real + (k + SetBits(f, |bits|)) as real
    decreases |bits|
  {
    if bits != [] {
      assert Multipliers(bits[1..], precision);
      if f % 2 == 1 {
        ScaledBracket(x, y, k, bits[0], precision);
        DecayedBracket(Scaled(x, bits[0], precision), y * Ratio(bits[0], precision), k + 1, f / 2, bits[1..],
                       precision);
      } else {
        DecayedBracket(x, y, k, f / 2, bits[1..], precision);
      }
    }
  }

  /** Multiplying one factor at a time is multiplying by their product. */
  lemma {:induction false} ExactIsProduct(y: real, f: nat, bits: seq<nat>, precision: nat)
    requires precision > 0
    ensures Exact(y, f, bits, precision) == y * Factor(f, bits, precision)
    decreases |bits|
  {
    if bits != [] {
      var rest := Factor(f / 2, bits[1..], precision);
      if f % 2 == 1 {
        ExactIsProduct(y * Ratio(bits[0], precision), f / 2, bits[1..], precision);
        MulAssoc(y, Ratio(bits[0], precision), rest);
      } else {
        ExactIsProduct(y, f / 2, bits[1..], precision);
      }
    }
  }

  lemma MulAssoc(a: real, b: real, c: real)
    ensures a * (b * c) == (a * b) * c
  {
  }

  /** What the premium would be without rounding after the whole days. */
  ghost function ExactValue(p: Pricing, elapsed: nat): real
    requires p.precision > 0
  {
    Exact(Shifted(p.start, Period(elapsed)) as real, Fraction(elapsed), p.bits, p.precision)
  }

  /** What the premium would be without any rounding. */
  ghost function TrueValue(p: Pricing, elapsed: nat): real
    requires p.precision > 0
  {
    Exact(p.start as real / Pow2(Period(elapsed)) as real, Fraction(elapsed), p.bits, p.precision)
  }

  /** Rounding costs at most one unit for each selected multiplier, sixteen in all, and never adds. */
  lemma RoundingLoss(p: Pricing, elapsed: nat)
    requires Fixed(p)
    ensures
      var lost := SetBits(Fraction(elapsed), 16);
      && Value(p, elapsed) as real <= ExactValue(p, elapsed) <= Value(p, elapsed) as real + lost as real
      && lost <= 16
  {
    var x, f := Shifted(p.start, Period(elapsed)), Fraction(elapsed);
    DecayedBracket(x, x as real, 0, f, p.bits, p.precision);
  }

  /** Against the product of the unrounded division by whole days, one unit more. */
  lemma TotalRoundingLoss(p: Pricing, elapsed: nat)
    requires Fixed(p)
    ensures
      var lost := SetBits(Fraction(elapsed), 16) + 1;
      Value(p, elapsed) as real <= TrueValue(p, elapsed) <= Value(p, elapsed) as real + lost as real
  {
    var w := Period(elapsed);
    var x, y, f := Shifted(p.start, w), p.start as real / Pow2(w) as real, Fraction(elapsed);
    ShiftBracket(p.start, w);
    DecayedBracket(x, y, 1, f, p.bits, p.precision);
  }

  lemma ShiftQuotient(x: nat, times: nat)
    ensures Shifted(x, times) * Pow2(times) <= x < (Shifted(x, times) + 1) * Pow2(times)
  {
    ShiftDivides(x, times);
    StepUp(x / Pow2(times), Pow2(times));
  }

  lemma ShiftBracket(x: nat, times: nat)
    ensures Shifted(x, times) as real <= x as real / Pow2(times) as real <= Shifted(x, times) as real + 1 as real
  {
    ShiftQuotient(x, times);
    RealBracket(Shifted(x, times), x, Pow2(times));
  }

  lemma RealBracket(q: nat, x: nat, d: nat)
    requires d > 0 && q * d <= x < (q + 1) * d
    ensures q as real <= x as real / d as real <= q as real + 1 as real
  {
    CastProduct(q, d);
    CastProduct(q + 1, d);
    DivideBracket(q as real, x as real, (q + 1) as real, d as real);
  }

  lemma DivideBracket(a: real, x: real, b: real, d: real)
    requires d > 0.0 && a * d <= x <= b * d
    ensures a <= x / d <= b
  {
    var y := x / d;
    assert y * d == x;
    CancelPositive(a, y, d);
    CancelPositive(y, b, d);
  }

  // ---------------------------------------------------------------------------------
  // Order in time
  // ---------------------------------------------------------------------------------

  /** Every digit of `f` is also a digit of `g`. */
  ghost predicate DigitsWithin(f: nat, g: nat, n: nat) {
    n == 0 || ((f % 2 == 1 ==> g % 2 == 1) && DigitsWithin(f / 2, g / 2, n - 1))
  }

  /** The premium cannot rise between two moments unless a digit of the fraction is cleared by a carry. */
  lemma {:induction false} NoCarryNoRise(x: nat, f: nat, g: nat, bits: seq<nat>, precision: nat)
    requires Multipliers(bits, precision) && DigitsWithin(f, g, |bits|)
    ensures Decayed(x, g, bits, precision) <= Decayed(x, f, bits, precision)
    decreases |bits|
  {
    if bits != [] {
      assert Multipliers(bits[1..], precision);
      var xf := if f % 2 == 1 then Scaled(x, bits[0], precision) else x;
      var xg := if g % 2 == 1 then Scaled(x, bits[0], precision) else x;
      ScaledShrinks(x, bits[0], precision);
      NoCarryNoRise(xf, f / 2, g / 2, bits[1..], precision);
      DecayedGrows(xg, xf, g / 2, bits[1..], precision);
    }
  }

  /** The exact multipliers decay with the fraction of the day, and never below one half. */
  ghost predicate Smooth(p: Pricing)
    requires p.precision > 0
  {
    && (forall f: nat, g: nat :: f <= g < FRACTIONS ==>
          Factor(g, p.bits, p.precision) <= Factor(f, p.bits, p.precision))
    && forall f: nat :: f < FRACTIONS ==> 0.5 <= Factor(f, p.bits, p.precision)
  }

  lemma {:induction false} FactorAtMostOne(f: nat, bits: seq<nat>, precision: nat)
    requires Multipliers(bits, precision)
    ensures 0.0 < Factor(f, bits, precision) <= 1.0
    decreases |bits|
  {
    if bits != [] {
      assert Multipliers(bits[1..], precision);
      FactorAtMostOne(f / 2, bits[1..], precision);
      var rest, c := Factor(f / 2, bits[1..], precision), Ratio(bits[0], precision);
      UnitRatio(bits[0] as real, precision as real);
      ScaleWithin(rest, c);
      assert Factor(f, bits, precision) == if f % 2 == 1 then c * rest else rest;
    }
  }

  lemma ScaleWithin(d: real, c: real)
    requires 0.0 < d <= 1.0 && 0.0 < c <= 1.0
    ensures 0.0 < c * d <= 1.0
  {
    ScaleDown(d, c);
  }

  lemma TimesMono(x: real, a: real, b: real)
    requires x >= 0.0 && a <= b
    ensures x * a <= x * b
  {
  }

  lemma {:induction false} HalvesByDay(x: nat, v: nat, w: nat)
    requires v < w
    ensures 2 * Shifted(x, w) <= Shifted(x, v)
    decreases w
  {
    if v < w - 1 {
      HalvesByDay(x, v, w - 1);
    }
  }

  lemma ExactNeverRises(p: Pricing, early: nat, late: nat)
    requires Fixed(p) && Smooth(p) && early <= late
    ensures ExactValue(p, late) <= ExactValue(p, early)
  {
    var x, f := Shifted(p.start, Period(early)), Fraction(early);
    var y, g := Shifted(p.start, Period(late)), Fraction(late);
    FractionBound(early, late);
    if Period(early) < Period(late) {
      HalvesByDay(p.start, Period(early), Period(late));
    }
    ProductsOrdered(p, x, f, y, g);
  }

  lemma ProductsOrdered(p: Pricing, x: nat, f: nat, y: nat, g: nat)
    requires Fixed(p) && Smooth(p) && f < FRACTIONS && g < FRACTIONS
    requires (x == y && f <= g) || 2 * y <= x
    ensures Exact(y as real, g, p.bits, p.precision) <= Exact(x as real, f, p.bits, p.precision)
  {
    ExactIsProduct(x as real, f, p.bits, p.precision);
    ExactIsProduct(y as real, g, p.bits, p.precision);
    FactorAtMostOne(g, p.bits, p.precision);
    InOrder(x as real, Factor(f, p.bits, p.precision), y as real, Factor(g, p.bits, p.precision));
  }

  lemma InOrder(x: real, ff: real, y: real, fg: real)
    requires x >= 0.0 && y >= 0.0 && ((x == y && fg <= ff) || (2.0 * y <= x && fg <= 1.0 && 0.5 <= ff))
    ensures y * fg <= x * ff
  {
    if x == y && fg <= ff {
      TimesMono(x, fg, ff);
    } else {
      TimesMono(y, fg, 1.0);
      TimesMono(x, 0.5, ff);
    }
  }

  lemma FractionBound(early: nat, late: nat)
    requires early <= late
    ensures Fraction(early) < FRACTIONS && Fraction(late) < FRACTIONS
    ensures Period(early) <= Period(late)
    ensures Period(early) == Period(late) ==> Fraction(early) <= Fraction(late)
  {
  }

  /**
   Whatever a carry adds back is less than what rounding had taken: a later value exceeds an earlier
   one by at most sixteen.
   */
  lemma NearlyNeverRises(p: Pricing, early: nat, late: nat)
    requires Fixed(p) && Smooth(p) && early <= late
    ensures Value(p, late) <= Value(p, early) + SetBits(Fraction(early), 16)
  {
    ExactNeverRises(p, early, late);
    RoundingLoss(p, early);
    RoundingLoss(p, late);
  }
}
