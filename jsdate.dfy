/** The few ECMAScript `Date` operations the extractor performs, on time values in milliseconds
    since 1970-01-01T00:00:00Z, following the ECMAScript definitions of Day, TimeWithinDay and
    MakeDay. */
module JsDate {
  import opened Calendar

  /** A `Date` object: a time value, or the invalid date whose time value is NaN (what
      `new Date(s)` yields for a string it cannot parse). */
  datatype Date = Instant(ms: int) | InvalidDate

  /** 2023-06-05T19:59:00.000Z, the official launch used for "正式开服后". */
  const LaunchMs: int := 1_685_995_140_000

  /** Length of a version window: six weeks. */
  const VersionDays: int := 42

  function Day(t: int): (k: int) {
    t / MsPerDay
  }

  function TimeWithinDay(t: int): (ms: int) {
    t % MsPerDay
  }

  /** The UTC calendar date of time value `t`. */
  function UtcDate(t: int): (c: Civil) {
    CivilFromDays(Day(t))
  }

  /** `d.setDate(d.getDate() + n)`, taken as `n` days of 86 400 000 ms each; NaN stays NaN. */
  function AddDays(d: Date, n: int): (r: Date)
    ensures r.Instant? <==> d.Instant?
    ensures d.Instant? ==> Day(r.ms) == Day(d.ms) + n && TimeWithinDay(r.ms) == TimeWithinDay(d.ms)
  {
    match d
    case Instant(ms) =>
      DayOfTime(Day(ms) + n, TimeWithinDay(ms));
      Instant(ms + n * MsPerDay)
    case InvalidDate => InvalidDate
  }

  /** `t.setUTCMonth(month0)`: the year, the day of the month and the time of day are kept, and
      MakeDay lets a day past the end of the new month run over into the month after. */
  function SetUtcMonth(t: int, month0: int): (r: int)
    ensures var c := UtcDate(t);
            Day(r) == MakeDay(c.year, month0, c.day) && TimeWithinDay(r) == TimeWithinDay(t)
  {
    var c := UtcDate(t);
    DayOfTime(MakeDay(c.year, month0, c.day), TimeWithinDay(t));
    MakeDay(c.year, month0, c.day) * MsPerDay + TimeWithinDay(t)
  }

  /** `t.setUTCDate(date)`: date 0 is the day before the first of the month. */
  function SetUtcDate(t: int, date: int): (r: int)
    ensures var c := UtcDate(t);
            Day(r) == MakeDay(c.year, c.month - 1, date) && TimeWithinDay(r) == TimeWithinDay(t)
  {
    var c := UtcDate(t);
    DayOfTime(MakeDay(c.year, c.month - 1, date), TimeWithinDay(t));
    MakeDay(c.year, c.month - 1, date) * MsPerDay + TimeWithinDay(t)
  }

  /** `setUTCHours(0)`, `setUTCMinutes(0)`, `setUTCSeconds(0)` and `setUTCMilliseconds(0)` in a row. */
  function StartOfUtcDay(t: int): (r: int)
    ensures r % MsPerDay == 0 && Day(r) == Day(t) && r <= t < r + MsPerDay
  {
    DayOfTime(Day(t), 0);
    Day(t) * MsPerDay
  }

  lemma DayOfTime(k: int, tw: int)
    requires 0 <= tw < MsPerDay
    ensures Day(k * MsPerDay + tw) == k && TimeWithinDay(k * MsPerDay + tw) == tw
  {
  }

  /** `DaysFromCivil` counts days one by one within a month. */
  lemma DaysFromCivilStep(y: int, m: int, d: int)
    requires 1 <= m <= 12
    ensures DaysFromCivil(y, m, d) == DaysFromCivil(y, m, 1) + d - 1
  {
  }

  /** MakeDay of the month after month `m` (counting from 1) of year `y`. */
  lemma MakeDayOfNextMonth(y: int, m: int, date: int)
    requires 1 <= m <= 12
    ensures var n := NextMonth(y, m);
            MakeDay(y, m, date) == DaysFromCivil(n.year, n.month, 1) + date - 1
  {
    if m == 12 {
      assert m / 12 == 1 && m % 12 == 0;
    } else {
      assert m / 12 == 0 && m % 12 == m;
    }
  }

  /** MakeDay of month `m` (counting from 1) of year `y`. */
  lemma MakeDayOfMonth(y: int, m: int, date: int)
    requires 1 <= m <= 12
    ensures MakeDay(y, m - 1, date) == DaysFromCivil(y, m, date)
  {
    assert (m - 1) / 12 == 0 && (m - 1) % 12 == m - 1;
    DaysFromCivilStep(y, m, date);
  }

  /** A time value at midnight is its day times the length of a day. */
  lemma MidnightIsWholeDays(t: int)
    requires t % MsPerDay == 0
    ensures t == Day(t) * MsPerDay
  {
  }

  /** The UTC date of midnight starting day `k`. */
  lemma UtcDateOfMidnight(k: int)
    ensures UtcDate(k * MsPerDay) == CivilFromDays(k)
  {
    DayOfTime(k, 0);
    assert Day(k * MsPerDay) == k;
  }

  /** The day a time value falls on, rebuilt from its UTC date. */
  lemma UtcDateDay(t: int)
    ensures var c := UtcDate(t); DaysFromCivil(c.year, c.month, c.day) == Day(t)
  {
    CivilFromDaysInverse(Day(t));
  }

  /** Midnight (UTC) at the end of the current UTC month, the intended result of the fallback in
      `handleDateStr`: the last day of the month `now` falls in, at 00:00:00.000 UTC. */
  function MonthEnd(now: int): (t: int)
    ensures t % MsPerDay == 0
    ensures var c := UtcDate(now);
            UtcDate(t) == Civil(c.year, c.month, DaysInMonth(c.year, c.month))
    ensures Day(now) <= Day(t)
  {
    var c := UtcDate(now);
    var k := MakeDay(c.year, c.month, 0);
    LastDayOfMonth(now);
    MidnightOfDay(k);
    CivilRoundTrip(Civil(c.year, c.month, DaysInMonth(c.year, c.month)));
    k * MsPerDay
  }

  /** Midnight (UTC) starting day `k`: a whole number of days, on day `k`, and on the date of
      day `k`. */
  lemma MidnightOfDay(k: int)
    ensures (k * MsPerDay) % MsPerDay == 0 && Day(k * MsPerDay) == k
    ensures UtcDate(k * MsPerDay) == CivilFromDays(k)
  {
    DayOfTime(k, 0);
    UtcDateOfMidnight(k);
  }

  /** Day 0 of the month after the month of `now` is the last day of that month, and not before
      the day of `now`. */
  lemma LastDayOfMonth(now: int)
    ensures var c := UtcDate(now);
            var k := MakeDay(c.year, c.month, 0);
            k == DaysFromCivil(c.year, c.month, DaysInMonth(c.year, c.month)) && Day(now) <= k
  {
    var c := UtcDate(now);
    var len := DaysInMonth(c.year, c.month);
    var n := NextMonth(c.year, c.month);
    MakeDayOfNextMonth(c.year, c.month, 0);
    MonthsAreAdjacent(c.year, c.month);
    assert MakeDay(c.year, c.month, 0) == DaysFromCivil(c.year, c.month, len);
    UtcDateDay(now);
    DaysFromCivilStep(c.year, c.month, c.day);
    DaysFromCivilStep(c.year, c.month, len);
  }

  /** The fallback exactly as `handleDateStr` computes it from `new Date()`: move to the next month
      with `setUTCMonth(getUTCMonth() + 1)`, step back to day 0 of that month with `setUTCDate(0)`,
      and clear the time of day. When today's day of the month does not exist in the next month
      (January 29-31, or 30-31 in leap years; March 31, May 31, August 31, October 31), `setUTCMonth` overflows into the
      month after and the result is the end of NEXT month instead of this one. */
  function MonthEndAsWritten(now: int): (t: int)
    ensures t % MsPerDay == 0
    ensures var c := UtcDate(now);
            var n := NextMonth(c.year, c.month);
            (c.day <= DaysInMonth(n.year, n.month) <==> t == MonthEnd(now)) &&
            (c.day > DaysInMonth(n.year, n.month) ==>
               UtcDate(t) == Civil(n.year, n.month, DaysInMonth(n.year, n.month)))
  {
    var t1 := SetUtcMonth(now, UtcDate(now).month);
    var t2 := SetUtcDate(t1, 0);
    var t := StartOfUtcDay(t2);
    MonthEndAsWrittenCases(now);
    t
  }

  lemma MonthEndAsWrittenCases(now: int)
    ensures var c := UtcDate(now);
            var n := NextMonth(c.year, c.month);
            var t := StartOfUtcDay(SetUtcDate(SetUtcMonth(now, c.month), 0));
            t % MsPerDay == 0 &&
            (c.day <= DaysInMonth(n.year, n.month) <==> t == MonthEnd(now)) &&
            (c.day > DaysInMonth(n.year, n.month) ==>
               UtcDate(t) == Civil(n.year, n.month, DaysInMonth(n.year, n.month)))
  {
    var c := UtcDate(now);
    var n := NextMonth(c.year, c.month);
    var len := DaysInMonth(n.year, n.month);
    var t1 := SetUtcMonth(now, c.month);
    SetUtcMonthToNext(now);
    var e := MonthEnd(now);
    MakeDayOfNextMonth(c.year, c.month, 0);
    assert e == (DaysFromCivil(n.year, n.month, 1) - 1) * MsPerDay;
    if c.day <= len {
      StepBackWithoutOverflow(t1, n, c.day);
    } else {
      StepBackAfterOverflow(t1, n, c.day);
      var t := StartOfUtcDay(SetUtcDate(t1, 0));
      DaysFromCivilStep(n.year, n.month, len);
      assert Day(t) == DaysFromCivil(n.year, n.month, len) by { UtcDateDay(t); }
      DayOfTime(DaysFromCivil(n.year, n.month, 1) - 1, 0);
      assert t != e;
    }
  }

  /** `setUTCMonth(getUTCMonth() + 1)`: the same day of the month and time of day, in the next
      month, counted by `DaysFromCivil` without range check on the day. */
  lemma SetUtcMonthToNext(now: int)
    ensures var c := UtcDate(now);
            var n := NextMonth(c.year, c.month);
            var t1 := SetUtcMonth(now, c.month);
            Day(t1) == DaysFromCivil(n.year, n.month, c.day) && TimeWithinDay(t1) == TimeWithinDay(now)
  {
    var c := UtcDate(now);
    var n := NextMonth(c.year, c.month);
    var d1 := MakeDay(c.year, c.month, c.day);
    MakeDayOfNextMonth(c.year, c.month, c.day);
    DaysFromCivilStep(n.year, n.month, c.day);
    DayOfTime(d1, TimeWithinDay(now));
  }

  /** `setUTCDate(0)` and the clearing of the time of day, when the day of the month did not
      overflow: midnight before the first of month `n`. */
  lemma StepBackWithoutOverflow(t1: int, n: Civil, day: int)
    requires 1 <= n.month <= 12 && 1 <= day <= DaysInMonth(n.year, n.month)
    requires Day(t1) == DaysFromCivil(n.year, n.month, day)
    ensures StartOfUtcDay(SetUtcDate(t1, 0)) == (DaysFromCivil(n.year, n.month, 1) - 1) * MsPerDay
  {
    CivilRoundTrip(Civil(n.year, n.month, day));
    assert UtcDate(t1) == Civil(n.year, n.month, day);
    MakeDayOfMonth(n.year, n.month, 0);
    DaysFromCivilStep(n.year, n.month, 0);
    var k := DaysFromCivil(n.year, n.month, 1) - 1;
    assert MakeDay(n.year, n.month - 1, 0) == k;
    var t2 := SetUtcDate(t1, 0);
    assert t2 == k * MsPerDay + TimeWithinDay(t1);
    DayOfTime(k, TimeWithinDay(t1));
    assert Day(t2) == k;
  }

  /** `setUTCDate(0)` and the clearing of the time of day, when `setUTCMonth` overflowed from
      month `n` into the month after it: midnight on the last day of month `n`. */
  lemma StepBackAfterOverflow(t1: int, n: Civil, day: int)
    requires 1 <= n.month <= 12 && DaysInMonth(n.year, n.month) < day <= 31
    requires Day(t1) == DaysFromCivil(n.year, n.month, day)
    ensures var len := DaysInMonth(n.year, n.month);
            var t := StartOfUtcDay(SetUtcDate(t1, 0));
            t == DaysFromCivil(n.year, n.month, len) * MsPerDay &&
            UtcDate(t) == Civil(n.year, n.month, len)
  {
    var len := DaysInMonth(n.year, n.month);
    var nn := NextMonth(n.year, n.month);
    OverflowIntoNextMonth(n, day);
    assert UtcDate(t1) == Civil(nn.year, nn.month, day - len);
    var k := DaysFromCivil(n.year, n.month, len);
    DayZeroOfNextMonth(n);
    var t2 := SetUtcDate(t1, 0);
    assert t2 == k * MsPerDay + TimeWithinDay(t1);
    DayOfTime(k, TimeWithinDay(t1));
    var t := StartOfUtcDay(t2);
    assert t == k * MsPerDay;
    UtcDateOfMidnight(k);
    CivilRoundTrip(Civil(n.year, n.month, len));
  }

  /** A day of month `n` past its end is that many days into the next month. */
  lemma OverflowIntoNextMonth(n: Civil, day: int)
    requires 1 <= n.month <= 12 && DaysInMonth(n.year, n.month) < day <= 31
    ensures var nn := NextMonth(n.year, n.month);
            var len := DaysInMonth(n.year, n.month);
            CivilFromDays(DaysFromCivil(n.year, n.month, day)) == Civil(nn.year, nn.month, day - len)
  {
    var len := DaysInMonth(n.year, n.month);
    var nn := NextMonth(n.year, n.month);
    MonthsAreAdjacent(n.year, n.month);
    DaysFromCivilStep(n.year, n.month, len);
    DaysFromCivilStep(n.year, n.month, day);
    DaysFromCivilStep(nn.year, nn.month, day - len);
    assert DaysFromCivil(n.year, n.month, day) == DaysFromCivil(nn.year, nn.month, day - len);
    CivilRoundTrip(Civil(nn.year, nn.month, day - len));
  }

  /** MakeDay of day 0 of the month after month `n` is the last day of month `n`. */
  lemma DayZeroOfNextMonth(n: Civil)
    requires 1 <= n.month <= 12
    ensures var nn := NextMonth(n.year, n.month);
            MakeDay(nn.year, nn.month - 1, 0) == DaysFromCivil(n.year, n.month, DaysInMonth(n.year, n.month))
  {
    var nn := NextMonth(n.year, n.month);
    MonthsAreAdjacent(n.year, n.month);
    MakeDayOfMonth(nn.year, nn.month, 0);
    DaysFromCivilStep(nn.year, nn.month, 0);
  }

  /** The discrepancy on a concrete clock: at 2024-01-31T15:30:00Z the fallback as written gives
      2024-02-29T00:00:00Z, a month late; the end of the current month is 2024-01-31T00:00:00Z. */
  lemma MonthEndOverflowsOnJanuary31(now: int)
    requires now == 1_706_715_000_000
    ensures MonthEndAsWritten(now) == 1_709_164_800_000
    ensures MonthEnd(now) == 1_706_659_200_000
  {
    OnJanuary31();
    WrittenOnJanuary31(now);
    IntendedOnJanuary31(now);
  }

  /** 2024-01-31T15:30:00Z falls on 2024-01-31 (UTC). */
  lemma OnJanuary31()
    ensures UtcDate(1_706_715_000_000) == Civil(2024, 1, 31)
  {
    DayOfTime(19753, 55_800_000);
    assert Day(1_706_715_000_000) == 19753;
    assert DaysFromCivil(2024, 1, 31) == 19753;
    CivilRoundTrip(Civil(2024, 1, 31));
  }

  /** The day numbers of 2024-01-31 and 2024-02-29. */
  lemma DayNumbersOfJanuary31AndFebruary29()
    ensures DaysFromCivil(2024, 1, 31) == 19753
    ensures DaysFromCivil(2024, 2, 29) == 19782
  {
  }

  /** `LaunchMs` is 2023-06-05T19:59:00.000Z: UTC date 2023-06-05, 71 940 000 ms into the day. */
  lemma LaunchInstant()
    ensures UtcDate(LaunchMs) == Civil(2023, 6, 5) && TimeWithinDay(LaunchMs) == 71_940_000
  {
    DayOfTime(19513, 71_940_000);
    assert DaysFromCivil(2023, 6, 5) == 19513;
    CivilRoundTrip(Civil(2023, 6, 5));
  }

  /** Midnight (UTC) starting 2024-02-29, day 19782. */
  lemma MidnightOfFebruary29(t: int)
    requires t % MsPerDay == 0 && Day(t) == 19782
    ensures t == 1_709_164_800_000
  {
    MidnightIsWholeDays(t);
  }

  /** Midnight (UTC) starting 2024-01-31, day 19753. */
  lemma MidnightOfJanuary31(t: int)
    requires t % MsPerDay == 0 && Day(t) == 19753
    ensures t == 1_706_659_200_000
  {
    MidnightIsWholeDays(t);
  }

  /** On 2024-01-31 the fallback as written lands on 2024-02-29. */
  lemma WrittenOnJanuary31(now: int)
    requires UtcDate(now) == Civil(2024, 1, 31)
    ensures MonthEndAsWritten(now) == 1_709_164_800_000
  {
    assert NextMonth(2024, 1) == Civil(2024, 2, 1);
    assert DaysInMonth(2024, 2) == 29;
    var t := MonthEndAsWritten(now);
    assert UtcDate(t) == Civil(2024, 2, 29);
    UtcDateDay(t);
    DayNumbersOfJanuary31AndFebruary29();
    MidnightOfFebruary29(t);
  }

  /** On 2024-01-31 the intended month end is 2024-01-31 itself. */
  lemma IntendedOnJanuary31(now: int)
    requires UtcDate(now) == Civil(2024, 1, 31)
    ensures MonthEnd(now) == 1_706_659_200_000
  {
    assert DaysInMonth(2024, 1) == 31;
    var e := MonthEnd(now);
    assert UtcDate(e) == Civil(2024, 1, 31);
    UtcDateDay(e);
    DayNumbersOfJanuary31AndFebruary29();
    MidnightOfJanuary31(e);
  }
}
