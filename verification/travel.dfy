/** Travel-time estimates derived from a road distance and a fixed average
    speed, as the server computes them (GREATEST(5, ROUND(...)) in SQL) and
    as the booking modal computes them (Math.round(...) + 5). Distances are
    whole metres and the arithmetic is exact: metres / 1000 / speed * 60
    minutes is the fraction (metres * 60) / (1000 * speed). */
module Travel {
  import opened Arith

  /** The average driving speed both server and client assume. */
  const AverageSpeedKmh: nat := 40

  /** The server's floor on any travel estimate, in minutes. */
  const MinimumTravelMinutes: int := 5

  function Max(a: int, b: int): int {
    if a < b then b else a
  }

  // ---------------------------------------------------------------- rounding

  /** The integer nearest to n / d, halves rounded up (JavaScript Math.round). */
  function RoundHalfUp(n: int, d: int): (r: int)
    requires d > 0
    ensures -d <= 2 * (n - r * d) < d
    ensures n >= 0 ==> r >= 0
  {
    (2 * n + d) / (2 * d)
  }

  /** The integer nearest to n / d, halves rounded to the even neighbour
      (PostgreSQL's round() on double precision, which uses rint). */
  function RoundHalfEven(n: int, d: int): (r: int)
    requires d > 0
    ensures -d <= 2 * (n - r * d) <= d
    ensures (2 * (n - r * d) == d || 2 * (n - r * d) == -d) ==> r % 2 == 0
    ensures n >= 0 ==> r >= 0
  {
    var q := n / d;
    var rem := n % d;
    QuotientRemainder(n, d);
    assert (q + 1) * d == q * d + d;
    if 2 * rem < d then q
    else if 2 * rem > d then q + 1
    else if q % 2 == 0 then q
    else q + 1
  }

  /** Rounding half up never rounds a value lower than half-to-even does. */
  lemma HalfUpAtLeastHalfEven(n: int, d: int)
    requires d > 0
    ensures RoundHalfUp(n, d) >= RoundHalfEven(n, d)
  {
    var u := RoundHalfUp(n, d);
    var e := RoundHalfEven(n, d);
    if u < e {
      MulStep(u, e, d);
    }
  }

  lemma RoundHalfUpMonotone(a: int, b: int, d: int)
    requires d > 0 && a <= b
    ensures RoundHalfUp(a, d) <= RoundHalfUp(b, d)
  {
    var ra := RoundHalfUp(a, d);
    var rb := RoundHalfUp(b, d);
    if rb < ra {
      MulStep(rb, ra, d);
    }
  }

  lemma RoundHalfEvenMonotone(a: int, b: int, d: int)
    requires d > 0 && a <= b
    ensures RoundHalfEven(a, d) <= RoundHalfEven(b, d)
  {
    var ra := RoundHalfEven(a, d);
    var rb := RoundHalfEven(b, d);
    if rb < ra {
      MulStep(rb, ra, d);
      // (2rb + 1)d <= (2ra - 1)d <= 2a <= 2b <= (2rb + 1)d: both are ties
      // and ties one step apart cannot both be even
      if rb + 1 < ra {
        MulStep(rb + 1, ra, d);
      }
    }
  }

  // ------------------------------------------------------------- estimates

  /** Minutes needed to drive `meters` at `speedKmh`, as an exact fraction
      numerator / denominator. */
  function DriveNumerator(meters: nat): nat {
    meters * 60
  }

  function DriveDenominator(speedKmh: nat): nat
    requires speedKmh > 0
  {
    1000 * speedKmh
  }

  /** The server's `travel_time_minutes`: the rounded driving time, but
      never less than five minutes. */
  function ServerTravelMinutes(meters: nat, speedKmh: nat): (m: int)
    requires speedKmh > 0
    ensures m >= MinimumTravelMinutes
    ensures m == MinimumTravelMinutes || m == RoundHalfEven(DriveNumerator(meters), DriveDenominator(speedKmh))
    ensures m >= RoundHalfEven(DriveNumerator(meters), DriveDenominator(speedKmh))
  {
    Max(MinimumTravelMinutes, RoundHalfEven(DriveNumerator(meters), DriveDenominator(speedKmh)))
  }

  /** The booking modal's estimate: the rounded driving time plus five
      minutes, always. */
  function ClientTravelMinutes(meters: nat, speedKmh: nat): (m: int)
    requires speedKmh > 0
    ensures m >= MinimumTravelMinutes
    ensures m - MinimumTravelMinutes == RoundHalfUp(DriveNumerator(meters), DriveDenominator(speedKmh))
  {
    RoundHalfUp(DriveNumerator(meters), DriveDenominator(speedKmh)) + MinimumTravelMinutes
  }

  /** A longer route never yields a shorter server estimate. */
  lemma ServerTravelMinutesMonotone(a: nat, b: nat, speedKmh: nat)
    requires speedKmh > 0 && a <= b
    ensures ServerTravelMinutes(a, speedKmh) <= ServerTravelMinutes(b, speedKmh)
  {
    RoundHalfEvenMonotone(DriveNumerator(a), DriveNumerator(b), DriveDenominator(speedKmh));
  }

  /** A longer route never yields a shorter client estimate. */
  lemma ClientTravelMinutesMonotone(a: nat, b: nat, speedKmh: nat)
    requires speedKmh > 0 && a <= b
    ensures ClientTravelMinutes(a, speedKmh) <= ClientTravelMinutes(b, speedKmh)
  {
    RoundHalfUpMonotone(DriveNumerator(a), DriveNumerator(b), DriveDenominator(speedKmh));
  }

  /** For the same distance the client never promises a shorter trip than
      the server: it adds five minutes where the server only floors at five,
      and it rounds halves up where the server rounds them to even. */
  lemma ClientAtLeastServer(meters: nat, speedKmh: nat)
    requires speedKmh > 0
    ensures ClientTravelMinutes(meters, speedKmh) >= ServerTravelMinutes(meters, speedKmh)
  {
    HalfUpAtLeastHalfEven(DriveNumerator(meters), DriveDenominator(speedKmh));
  }

  /** Worked values at 40 km/h: 4000 m is exactly 6 minutes on both sides
      of the rounding question; 7000 m is 10.5 minutes, a tie, which the
      server rounds to 10 and the client to 11 (then adds 5). Short trips
      hit the server's five-minute floor. */
  lemma TravelExamples()
    ensures ServerTravelMinutes(4000, AverageSpeedKmh) == 6
    ensures ClientTravelMinutes(4000, AverageSpeedKmh) == 11
    ensures ServerTravelMinutes(7000, AverageSpeedKmh) == 10
    ensures ClientTravelMinutes(7000, AverageSpeedKmh) == 16
    ensures ServerTravelMinutes(0, AverageSpeedKmh) == 5
    ensures ServerTravelMinutes(3000, AverageSpeedKmh) == 5
  {
    assert DriveDenominator(AverageSpeedKmh) == 40000;
    assert RoundHalfEven(240000, 40000) == 6;
    assert RoundHalfUp(240000, 40000) == 6;
    assert RoundHalfEven(420000, 40000) == 10;
    assert RoundHalfUp(420000, 40000) == 11;
    assert RoundHalfEven(0, 40000) == 0;
    assert RoundHalfEven(180000, 40000) == 4;
  }
}
