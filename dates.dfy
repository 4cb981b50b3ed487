/** Day arithmetic relative to the anniversary (services/date.ts). Instants
    are integer milliseconds since the epoch; the current clock is a parameter. */
module Dates {
  import opened Types

  /** 2022-05-23T00:00:00+08:00. */
  const StartMs: int := 1653235200000

  /** 1000 * 60 * 60 * 24. */
  const DayMs: int := 86400000

  /** `Math.ceil(a / d)` for integers and a positive divisor: the least
      `q` with `a <= q * d`. */
  function CeilDiv(a: int, d: int): (q: int)
    requires d > 0
    ensures (q - 1) * d < a <= q * d
  {
    var k := (-a) / d;
    assert -a == d * k + (-a) % d;
    -k
  }

  /** The ceiling is the only integer with that property. */
  lemma CeilDivUnique(a: int, d: int, q: int)
    requires d > 0 && (q - 1) * d < a <= q * d
    ensures q == CeilDiv(a, d)
  {
    var c := CeilDiv(a, d);
    if q < c {
      MulMonotone(q, c - 1, d);
    } else if q > c {
      MulMonotone(c, q - 1, d);
    }
  }

  lemma MulMonotone(x: int, y: int, d: int)
    requires x <= y && d > 0
    ensures x * d <= y * d
  {
  }

  /** The ceiling grows with its numerator. */
  lemma CeilDivMonotone(a: int, b: int, d: int)
    requires d > 0 && a <= b
    ensures CeilDiv(a, d) <= CeilDiv(b, d)
  {
    var p, q := CeilDiv(a, d), CeilDiv(b, d);
    if p > q {
      MulMonotone(q, p - 1, d);
    }
  }

  function Abs(x: int): nat {
    if x < 0 then -x else x
  }

  /** `getDaysTogether`: whole days, rounded up, between `now` and the start,
      in either direction. */
  function DaysTogether(nowMs: int): (n: int)
    ensures n >= 0
    ensures (n - 1) * DayMs < Abs(nowMs - StartMs) <= n * DayMs
  {
    CeilDiv(Abs(nowMs - StartMs), DayMs)
  }

  /** The count is the same the same distance before and after the start. */
  lemma DaysTogetherSymmetric(offset: int)
    ensures DaysTogether(StartMs + offset) == DaysTogether(StartMs - offset)
  {
    assert Abs(StartMs + offset - StartMs) == Abs(StartMs - offset - StartMs);
  }

  /** `getDayIndex`: the 1-based day of the relationship a date falls on;
      dates on or before the start give day 1. */
  function DayIndex(dateMs: int): (r: int)
    ensures r >= 1
    ensures dateMs > StartMs ==> (r - 1) * DayMs < dateMs - StartMs <= r * DayMs
    ensures dateMs <= StartMs ==> r == 1
  {
    var days := CeilDiv(dateMs - StartMs, DayMs);
    if days > 0 then days else 1
  }

  /** A later date never has a smaller day index. */
  lemma DayIndexMonotone(a: int, b: int)
    requires a <= b
    ensures DayIndex(a) <= DayIndex(b)
  {
    CeilDivMonotone(a - StartMs, b - StartMs, DayMs);
  }

  /** The start instant itself and the whole first day after it are day 1. */
  lemma FirstDayIsOne(dateMs: int)
    requires StartMs < dateMs <= StartMs + DayMs
    ensures DayIndex(dateMs) == 1
  {
    CeilDivUnique(dateMs - StartMs, DayMs, 1);
  }

  /** `calculateDetailedStats`: the day count split into 365-day years,
      30-day months and the remaining days. */
  function DetailedStats(nowMs: int): (s: DayStats)
    ensures s.daysTogether == DaysTogether(nowMs)
    ensures s.years * 365 + s.months * 30 + s.days == s.daysTogether
    ensures s.years >= 0 && 0 <= s.months <= 12 && 0 <= s.days < 30
    ensures s.months * 30 + s.days < 365
  {
    var totalDays := DaysTogether(nowMs);
    DayStats(totalDays, totalDays / 365, (totalDays % 365) / 30, (totalDays % 365) % 30)
  }

  /** Twelve months is reachable: 360 days together are 0 years, 12 months
      and 0 days, because a 365-day year holds twelve 30-day months and 5 days. */
  lemma TwelveMonthsReachable()
    ensures DetailedStats(StartMs + 360 * DayMs).months == 12
  {
    CeilDivUnique(360 * DayMs, DayMs, 360);
  }
}
