/**
 * The parking fee, as a function of the entry time, the exit time (both in
 * milliseconds) and the vehicle's size class. The duration is floored to
 * whole minutes and split into whole hours and leftover minutes; the first
 * three hours are covered by the base rate, later hours cost the size's
 * hourly rate, any leftover minutes cost one more hour, and a stay of a day
 * or more is charged by the day with no base rate.
 */
module Billing {
  import opened VehicleModel

  const BASE_RATE: int := 40
  const EXCEEDING_RATES: seq<int> := [20, 60, 100]
  const DAILY_RATE: int := 5000

  const MINUTE_MS: int := 1000 * 60
  const HOUR_MS: int := 60 * MINUTE_MS

  /** `Math.ceil` on an exact real. */
  function Ceil(x: real): (r: int)
    ensures x <= r as real < x + 1.0
  {
    -((-x).Floor)
  }

  /** JavaScript's `%` on integers: the remainder takes the sign of the dividend. */
  function JsRemainder(a: int, b: int): (r: int)
    requires b > 0
    ensures a >= 0 ==> 0 <= r < b
    ensures a >= 0 ==> r == a % b
    ensures a < 0 ==> -b < r <= 0
    ensures a < 0 ==> r == -((-a) % b)
  {
    if a >= 0 then a % b else -((-a) % b)
  }

  /**
   * The fee the lot charges. `Math.floor` of the minute count is Dafny's `/`
   * (the divisor is positive); the day branch keeps the source's steps, whose
   * remaining-hours term is exactly zero over the reals.
   */
  function CalculateFee(entryTime: int, exitTime: int, size: SizeClass): (fee: real)
    ensures fee >= BASE_RATE as real
  {
    var differenceInMinutes := (exitTime - entryTime) / MINUTE_MS;
    var hours := differenceInMinutes / 60;
    var minutes := JsRemainder(differenceInMinutes, 60);
    var rate := EXCEEDING_RATES[size] as real;
    var tiered :=
      if hours >= 24 then
        var daysFeeCount := hours as real / 24.0;
        var remainingHours := daysFeeCount * 24.0 - hours as real;
        DAILY_RATE as real * daysFeeCount + Ceil(remainingHours) as real * rate
      else if hours > 3 then
        Ceil((hours - 3) as real) as real * rate
      else
        0.0;
    var total := if minutes > 0 then tiered + rate else tiered;
    if hours >= 24 then total else total + BASE_RATE as real
  }

  /**
   * The tariff written as a table: `hours` whole hours and `minutes` leftover
   * minutes of a stay.
   */
  function Tariff(hours: int, minutes: int, size: SizeClass): real
  {
    var rate := EXCEEDING_RATES[size] as real;
    var surcharge := if minutes > 0 then rate else 0.0;
    if hours >= 24 then
      DAILY_RATE as real * hours as real / 24.0 + surcharge
    else
      BASE_RATE as real + (if hours > 3 then (hours - 3) as real * rate else 0.0) + surcharge
  }

  lemma {:induction false} MulAtLeast(d: int, b: int)
    requires d >= 1 && b > 0
    ensures d * b >= b
    decreases d
  {
    if d > 1 {
      MulAtLeast(d - 1, b);
      assert d * b == (d - 1) * b + b;
    }
  }

  /** Euclidean quotient and remainder are the only such pair. */
  lemma DivModUnique(a: int, b: int, q: int, r: int)
    requires b > 0 && 0 <= r < b && a == q * b + r
    ensures a / b == q && a % b == r
  {
    var q', r' := a / b, a % b;
    assert a == q' * b + r';
    assert (q - q') * b == q * b - q' * b;
    if q > q' {
      MulAtLeast(q - q', b);
    } else if q < q' {
      MulAtLeast(q' - q, b);
    }
  }

  /**
   * The fee of a stay of `hours` hours, `minutes` minutes and `millis`
   * milliseconds is the tariff of its whole hours and leftover minutes: the
   * seconds are dropped.
   */
  lemma FeeFollowsTariff(entryTime: int, hours: nat, minutes: nat, millis: nat, size: SizeClass)
    requires minutes < 60 && millis < MINUTE_MS
    ensures CalculateFee(entryTime, entryTime + hours * HOUR_MS + minutes * MINUTE_MS + millis, size)
            == Tariff(hours, minutes, size)
  {
    var total := hours * 60 + minutes;
    var span := hours * HOUR_MS + minutes * MINUTE_MS + millis;
    assert span == total * MINUTE_MS + millis;
    DivModUnique(span, MINUTE_MS, total, millis);
    DivModUnique(total, 60, hours, minutes);
    FeeByMinutes(entryTime, entryTime + span, size);
  }

  /** The fee of a stay of `m` whole minutes or more, in terms of the tariff. */
  lemma FeeByMinutes(entryTime: int, exitTime: int, size: SizeClass)
    requires entryTime <= exitTime
    ensures var m := (exitTime - entryTime) / MINUTE_MS;
            CalculateFee(entryTime, exitTime, size) == Tariff(m / 60, m % 60, size)
  {
    var m := (exitTime - entryTime) / MINUTE_MS;
    var hours := m / 60;
    assert JsRemainder(m, 60) == m % 60;
    if hours >= 24 {
      var days := hours as real / 24.0;
      assert days * 24.0 == hours as real;
      assert Ceil(days * 24.0 - hours as real) == 0;
    } else if hours > 3 {
      assert Ceil((hours - 3) as real) == hours - 3;
    }
  }

  /** The amounts the lot's own scenarios pin down. */
  lemma TestedFees(entryTime: int, size: SizeClass)
    ensures CalculateFee(entryTime, entryTime, size) == 40.0
    ensures CalculateFee(entryTime, entryTime + 24 * HOUR_MS, size) == 5000.0
    ensures CalculateFee(entryTime, entryTime + 5 * HOUR_MS, 0) == 80.0
    ensures CalculateFee(entryTime, entryTime + 4 * HOUR_MS, 0) == 60.0
    ensures CalculateFee(entryTime, entryTime + 3 * HOUR_MS + 30 * MINUTE_MS, 0) == 60.0
  {
    FeeFollowsTariff(entryTime, 0, 0, 0, size);
    FeeFollowsTariff(entryTime, 24, 0, 0, size);
    FeeFollowsTariff(entryTime, 5, 0, 0, 0);
    FeeFollowsTariff(entryTime, 4, 0, 0, 0);
    FeeFollowsTariff(entryTime, 3, 30, 0, 0);
  }

  /**
   * A stay that ends before it began (an exit time read from an absent stamp)
   * has a negative minute count and is charged the base rate only.
   */
  lemma FeeBeforeEntry(entryTime: int, exitTime: int, size: SizeClass)
    requires exitTime < entryTime
    ensures CalculateFee(entryTime, exitTime, size) == BASE_RATE as real
  {
  }

  /**
   * Leftover minutes are charged inside the free three hours as well, so a
   * longer stay can cost less: 2 h 30 min costs 60 and 3 h costs 40.
   */
  lemma FeeDropsAtFreeWindowEnd(entryTime: int)
    ensures CalculateFee(entryTime, entryTime + 2 * HOUR_MS + 30 * MINUTE_MS, 0) == 60.0
    ensures CalculateFee(entryTime, entryTime + 3 * HOUR_MS, 0) == 40.0
  {
    FeeFollowsTariff(entryTime, 2, 30, 0, 0);
    FeeFollowsTariff(entryTime, 3, 0, 0, 0);
  }

  lemma TariffStep(h: int, m: int, size: SizeClass)
    requires h >= 3 && 0 <= m < 60
    ensures Tariff(h, m, size) <= Tariff(h + 1, 0, size)
  {
  }

  lemma {:induction false} TariffGrowsWithHours(h1: int, h2: int, size: SizeClass)
    requires 3 <= h1 <= h2
    ensures Tariff(h1, 0, size) <= Tariff(h2, 0, size)
    decreases h2 - h1
  {
    if h1 < h2 {
      TariffStep(h1, 0, size);
      TariffGrowsWithHours(h1 + 1, h2, size);
    }
  }

  /** From three hours on, a longer stay never costs less. */
  lemma FeeMonotoneAfterFreeWindow(entryTime: int, exit1: int, exit2: int, size: SizeClass)
    requires entryTime + 3 * HOUR_MS <= exit1 <= exit2
    ensures CalculateFee(entryTime, exit1, size) <= CalculateFee(entryTime, exit2, size)
  {
    var m1 := (exit1 - entryTime) / MINUTE_MS;
    var m2 := (exit2 - entryTime) / MINUTE_MS;
    DivModUnique(3 * HOUR_MS, MINUTE_MS, 180, 0);
    assert 180 <= m1 <= m2;
    FeeByMinutes(entryTime, exit1, size);
    FeeByMinutes(entryTime, exit2, size);
    var h1, h2 := m1 / 60, m2 / 60;
    assert 3 <= h1 <= h2;
    if h1 < h2 {
      TariffStep(h1, m1 % 60, size);
      TariffGrowsWithHours(h1 + 1, h2, size);
    }
  }
}
