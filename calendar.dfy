/** The proleptic Gregorian calendar of ECMAScript `Date` values, on whole days counted from
    1970-01-01 (day 0). `DaysFromCivil` and `CivilFromDays` are the classic era-based conversions
    (400-year eras of 146097 days, years counted from March so that the leap day comes last). */
module Calendar {

  const MsPerDay: int := 86_400_000

  /** A calendar date; `month` runs from 1 to 12. */
  datatype Civil = Civil(year: int, month: int, day: int)

  predicate IsLeapYear(y: int) {
    y % 4 == 0 && (y % 100 != 0 || y % 400 == 0)
  }

  function DaysInMonth(y: int, m: int): (n: int)
    requires 1 <= m <= 12
  {
    if m == 2 then (if IsLeapYear(y) then 29 else 28)
    else if m == 4 || m == 6 || m == 9 || m == 11 then 30
    else 31
  }

  predicate ValidCivil(c: Civil) {
    1 <= c.month <= 12 && 1 <= c.day <= DaysInMonth(c.year, c.month)
  }

  /** The month after month `m` of year `y`. */
  function NextMonth(y: int, m: int): (c: Civil)
    requires 1 <= m <= 12
  {
    if m == 12 then Civil(y + 1, 1, 1) else Civil(y, m + 1, 1)
  }

  /** First day of month `mp` of a year that starts in March (mp = 0 is March, 11 is February). */
  function MonthStart(mp: int): (doy: int) {
    (153 * mp + 2) / 5
  }

  /** Day of the 400-year era on which day `doy` of year `yoe` of the era falls. */
  function DayOfEra(yoe: int, doy: int): (doe: int) {
    yoe * 365 + yoe / 4 - yoe / 100 + doy
  }

  /** Year of the era in which day `doe` of the era falls. */
  function YearOfEra(doe: int): (yoe: int) {
    (doe - doe / 1460 + doe / 36524 - doe / 146096) / 365
  }

  /** Day number of the date y-m-d. The day is not range-checked: the result is linear in `d`,
      so `d = 0` is the day before the first of the month, as in ECMAScript's MakeDay. */
  function DaysFromCivil(y: int, m: int, d: int): (z: int)
    requires 1 <= m <= 12
  {
    var y' := if m <= 2 then y - 1 else y;
    var era := y' / 400;
    var yoe := y' % 400;
    var mp := (m + 9) % 12;
    era * 146097 + DayOfEra(yoe, MonthStart(mp) + d - 1) - 719468
  }

  /** `DaysFromCivil` in terms of the era, the year of the era and the March-based month. */
  lemma DaysFromCivilParts(era: int, yoe: int, mp: int, d: int)
    requires 0 <= yoe <= 399 && 0 <= mp <= 11
    ensures DaysFromCivil(era * 400 + yoe + (if mp < 10 then 0 else 1), CivilMonth(mp), d)
            == era * 146097 + DayOfEra(yoe, MonthStart(mp) + d - 1) - 719468
  {
    var m := CivilMonth(mp);
    var y := era * 400 + yoe + (if mp < 10 then 0 else 1);
    var y' := if m <= 2 then y - 1 else y;
    assert y' == era * 400 + yoe;
    assert y' / 400 == era && y' % 400 == yoe;
    assert (m + 9) % 12 == mp;
  }

  /** `DaysFromCivilParts` for a date whose year and month are given by era, year of era and
      March-based month. */
  lemma DaysFromCivilOf(era: int, yoe: int, mp: int, c: Civil)
    requires 0 <= yoe <= 399 && 0 <= mp <= 11
    requires c.year == era * 400 + yoe + (if mp < 10 then 0 else 1) && c.month == CivilMonth(mp)
    ensures DaysFromCivil(c.year, c.month, c.day) == era * 146097 + DayOfEra(yoe, MonthStart(mp) + c.day - 1) - 719468
  {
    DaysFromCivilParts(era, yoe, mp, c.day);
  }

  /** Year of era `100c + 4q + r` and day `doy` of that year: the three correction terms of
      YearOfEra cancel out exactly. */
  lemma YearOfEraParts(c: int, q: int, r: int, doy: int)
    requires 0 <= c <= 3 && 0 <= q <= 24 && 0 <= r <= 3
    requires 0 <= doy <= 364 || (doy == 365 && r == 3 && (q != 24 || c == 3))
    ensures DayOfEra(100 * c + 4 * q + r, doy) == 36524 * c + 1461 * q + 365 * r + doy
    ensures YearOfEra(36524 * c + 1461 * q + 365 * r + doy) == 100 * c + 4 * q + r
  {
    var yoe := 100 * c + 4 * q + r;
    var doe := 36524 * c + 1461 * q + 365 * r + doy;
    EraYearQuotients(c, q, r);
    var e := EraDayCorrections(c, q, r, doy);
    YearQuotient(yoe, e);
    assert YearOfEra(doe) == (365 * yoe + e) / 365;
  }

  lemma EraYearQuotients(c: int, q: int, r: int)
    requires 0 <= c <= 3 && 0 <= q <= 24 && 0 <= r <= 3
    ensures (100 * c + 4 * q + r) / 4 == 25 * c + q && (100 * c + 4 * q + r) / 100 == c
  {
  }

  /** The three correction terms of YearOfEra on day `doy` of year of era `100c + 4q + r` leave
      365 times the year plus a day of the year. */
  lemma EraDayCorrections(c: int, q: int, r: int, doy: int) returns (e: int)
    requires 0 <= c <= 3 && 0 <= q <= 24 && 0 <= r <= 3
    requires 0 <= doy <= 364 || (doy == 365 && r == 3 && (q != 24 || c == 3))
    ensures var doe := 36524 * c + 1461 * q + 365 * r + doy;
            doe - doe / 1460 + doe / 36524 - doe / 146096 == 365 * (100 * c + 4 * q + r) + e
    ensures 0 <= e <= 364
  {
    var doe := 36524 * c + 1461 * q + 365 * r + doy;
    var t := if 24 * c + q + 365 * r + doy >= 1460 then 1 else 0;
    assert doe / 1460 == 25 * c + q + t;
    if doe == 146096 {
      assert doe / 36524 == 4 && doe / 146096 == 1;
    } else {
      assert doe / 36524 == c;
      assert doe / 146096 == 0;
    }
    e := doy - t;
  }

  lemma YearQuotient(yoe: int, e: int)
    requires 0 <= e <= 364
    ensures (365 * yoe + e) / 365 == yoe
  {
  }

  /** A March-based year of an era contains a leap day exactly when the calendar year it ends in
      is a leap year. */
  lemma LeapYearOfEra(era: int, yoe: int)
    requires 0 <= yoe <= 399
    ensures IsLeapYear(era * 400 + yoe + 1) <==> yoe % 4 == 3 && (yoe % 100 != 99 || yoe == 399)
  {
    var y, x := era * 400 + yoe + 1, yoe + 1;
    assert y / 4 == era * 100 + x / 4;
    assert y / 100 == era * 4 + x / 100;
    assert y / 400 == era + x / 400;
  }

  /** Day `doy` of year `yoe` of an era exists: at most 365 days, 366 only in leap years. */
  predicate DayOfYearExists(yoe: int, doy: int) {
    0 <= yoe <= 399 &&
    (0 <= doy <= 364 || (doy == 365 && yoe % 4 == 3 && (yoe % 100 != 99 || yoe == 399)))
  }

  lemma YearOfEraInverse(yoe: int, doy: int)
    requires DayOfYearExists(yoe, doy)
    ensures 0 <= DayOfEra(yoe, doy) <= 146096
    ensures YearOfEra(DayOfEra(yoe, doy)) == yoe
  {
    var c, q, r := yoe / 100, yoe % 100 / 4, yoe % 4;
    assert yoe == 100 * c + 4 * q + r;
    YearOfEraParts(c, q, r, doy);
  }

  /** Every day of an era lies in a year of the era that has that many days. */
  lemma YearOfEraSplits(doe: int)
    requires 0 <= doe <= 146096
    ensures DayOfYearExists(YearOfEra(doe), doe - DayOfEra(YearOfEra(doe), 0))
  {
    var c, q, r, doy := SplitDayOfEra(doe);
    YearOfEraParts(c, q, r, doy);
    EraYearDigits(c, q, r);
    var yoe := 100 * c + 4 * q + r;
    assert YearOfEra(doe) == yoe;
    assert DayOfEra(yoe, 0) + doy == doe;
    assert DayOfYearExists(yoe, doy);
  }

  /** A day of an era as 100-year centuries, 4-year cycles, years and a day of the year; only the
      last year of a 4-year cycle has a day 365, and the last cycle of a century has one only in
      the last century. */
  lemma SplitDayOfEra(doe: int) returns (c: int, q: int, r: int, doy: int)
    requires 0 <= doe <= 146096
    ensures doe == 36524 * c + 1461 * q + 365 * r + doy
    ensures 0 <= c <= 3 && 0 <= q <= 24 && 0 <= r <= 3
    ensures 0 <= doy <= 364 || (doy == 365 && r == 3 && (q != 24 || c == 3))
  {
    var rc;
    c, rc := SplitCentury(doe);
    var rq;
    q, rq := SplitCycle(rc);
    r, doy := SplitYear(rq);
  }

  lemma SplitCentury(doe: int) returns (c: int, rc: int)
    requires 0 <= doe <= 146096
    ensures doe == 36524 * c + rc && 0 <= c <= 3 && 0 <= rc <= 36524 && (c < 3 ==> rc < 36524)
  {
    c := if doe / 36524 > 3 then 3 else doe / 36524;
    rc := doe - 36524 * c;
  }

  lemma SplitCycle(rc: int) returns (q: int, rq: int)
    requires 0 <= rc <= 36524
    ensures rc == 1461 * q + rq && 0 <= q <= 24 && 0 <= rq <= 1460 && (q == 24 ==> rq == rc - 35064)
  {
    q := rc / 1461;
    rq := rc - 1461 * q;
  }

  lemma SplitYear(rq: int) returns (r: int, doy: int)
    requires 0 <= rq <= 1460
    ensures rq == 365 * r + doy && 0 <= r <= 3 && 0 <= doy <= 365 && (doy == 365 ==> r == 3 && rq == 1460)
  {
    r := if rq / 365 > 3 then 3 else rq / 365;
    doy := rq - 365 * r;
  }

  /** The remainders of year of era `100c + 4q + r`. */
  lemma EraYearDigits(c: int, q: int, r: int)
    requires 0 <= c <= 3 && 0 <= q <= 24 && 0 <= r <= 3
    ensures (100 * c + 4 * q + r) % 4 == r && (100 * c + 4 * q + r) % 100 == 4 * q + r
  {
  }

  /** The month of a day of a March-based year, and its first day. */
  lemma MonthOfDay(doy: int)
    requires 0 <= doy <= 365
    ensures var mp := (5 * doy + 2) / 153;
            0 <= mp <= 11 && MonthStart(mp) <= doy && (mp < 11 ==> doy < MonthStart(mp + 1))
  {
  }

  /** The month length in a March-based year, from its start table. */
  lemma MonthStartLength(mp: int)
    requires 0 <= mp <= 10
    ensures MonthStart(mp + 1) - MonthStart(mp) == DaysInMonth(2001, CivilMonth(mp))
  {
  }

  /** Month, counted from 1, of March-based month `mp`. */
  function CivilMonth(mp: int): (m: int) {
    if mp < 10 then mp + 3 else mp - 9
  }

  /** The date on day `doe` of era `era`. */
  function DateOfEraDay(era: int, doe: int): (c: Civil)
  {
    var yoe := YearOfEra(doe);
    var doy := doe - DayOfEra(yoe, 0);
    var mp := (5 * doy + 2) / 153;
    Civil(era * 400 + yoe + (if mp < 10 then 0 else 1), CivilMonth(mp), doy - MonthStart(mp) + 1)
  }

  /** The date of a day number: the inverse of `DaysFromCivil` (ECMAScript's YearFromTime,
      MonthFromTime and DateFromTime on whole days). */
  function CivilFromDays(z: int): (c: Civil)
    ensures ValidCivil(c)
  {
    var era, doe := (z + 719468) / 146097, (z + 719468) % 146097;
    DateOfEraDayIsValid(era, doe);
    DateOfEraDay(era, doe)
  }

  /** Every day of an era has a valid date. */
  lemma DateOfEraDayIsValid(era: int, doe: int)
    requires 0 <= doe <= 146096
    ensures ValidCivil(DateOfEraDay(era, doe))
  {
    YearOfEraSplits(doe);
    var yoe := YearOfEra(doe);
    var doy := doe - DayOfEra(yoe, 0);
    var mp := (5 * doy + 2) / 153;
    CivilFromDaysIsValid(era, yoe, doy);
    assert DateOfEraDay(era, doe) ==
           Civil(era * 400 + yoe + (if mp < 10 then 0 else 1), CivilMonth(mp), doy - MonthStart(mp) + 1);
  }

  /** `CivilFromDays` inverts `DaysFromCivil`: the date it reads off a day number maps back to
      that day number. */
  lemma CivilFromDaysInverse(z: int)
    ensures var c := CivilFromDays(z); DaysFromCivil(c.year, c.month, c.day) == z
  {
    var era, doe := (z + 719468) / 146097, (z + 719468) % 146097;
    assert z == era * 146097 + doe - 719468;
    YearOfEraSplits(doe);
    var yoe := YearOfEra(doe);
    var doy := doe - DayOfEra(yoe, 0);
    var mp := (5 * doy + 2) / 153;
    CivilFromDaysIsValid(era, yoe, doy);
    var c := Civil(era * 400 + yoe + (if mp < 10 then 0 else 1), CivilMonth(mp), doy - MonthStart(mp) + 1);
    assert CivilFromDays(z) == c;
    DaysFromCivilOf(era, yoe, mp, c);
    assert DayOfEra(yoe, MonthStart(mp) + c.day - 1) == doe;
  }

  /** The day and month CivilFromDays reads off a day of a year of an era form a valid date. */
  lemma CivilFromDaysIsValid(era: int, yoe: int, doy: int)
    requires DayOfYearExists(yoe, doy)
    ensures var mp := (5 * doy + 2) / 153;
            0 <= mp <= 11 &&
            ValidCivil(Civil(era * 400 + yoe + (if mp < 10 then 0 else 1), CivilMonth(mp), doy - MonthStart(mp) + 1))
  {
    var mp := (5 * doy + 2) / 153;
    MonthOfDay(doy);
    if mp < 11 {
      MonthStartLength(mp);
    } else {
      LeapYearOfEra(era, yoe);
    }
  }

  /** A day of a March-based year lies in exactly one month. */
  lemma MonthOfDayUnique(mp: int, doy: int)
    requires 0 <= mp <= 11 && MonthStart(mp) <= doy <= 365 && (mp < 11 ==> doy < MonthStart(mp + 1))
    ensures (5 * doy + 2) / 153 == mp
  {
  }

  /** A valid date, split into era, year of era and March-based month. */
  lemma CivilParts(c: Civil) returns (era: int, yoe: int, mp: int)
    requires ValidCivil(c)
    ensures 0 <= yoe <= 399 && 0 <= mp <= 11
    ensures c.year == era * 400 + yoe + (if mp < 10 then 0 else 1) && c.month == CivilMonth(mp)
    ensures DayOfYearExists(yoe, MonthStart(mp) + c.day - 1)
    ensures mp < 11 ==> MonthStart(mp) + c.day - 1 < MonthStart(mp + 1)
  {
    var y' := if c.month <= 2 then c.year - 1 else c.year;
    era, yoe := y' / 400, y' % 400;
    mp := if c.month >= 3 then c.month - 3 else c.month + 9;
    assert y' == era * 400 + yoe;
    if mp < 11 {
      MonthStartLength(mp);
      assert DaysInMonth(c.year, c.month) == DaysInMonth(2001, c.month);
    } else {
      LeapYearOfEra(era, yoe);
      assert IsLeapYear(c.year) <==> yoe % 4 == 3 && (yoe % 100 != 99 || yoe == 399);
      assert MonthStart(11) == 337;
    }
  }

  /** `DaysFromCivil` is one-to-one on valid dates: reading the date back gives it unchanged. */
  lemma CivilRoundTrip(c: Civil)
    requires ValidCivil(c)
    ensures CivilFromDays(DaysFromCivil(c.year, c.month, c.day)) == c
  {
    var era, doe := EraDayOf(c);
    CivilFromEraDay(era, doe, DaysFromCivil(c.year, c.month, c.day));
  }

  /** A valid date as a day of an era, which that era's day table reads back as the date. */
  lemma EraDayOf(c: Civil) returns (era: int, doe: int)
    requires ValidCivil(c)
    ensures 0 <= doe <= 146096 && DaysFromCivil(c.year, c.month, c.day) == era * 146097 + doe - 719468
    ensures DateOfEraDay(era, doe) == c
  {
    var yoe, mp;
    era, yoe, mp := CivilParts(c);
    doe := EraDayOfParts(era, yoe, mp, c);
  }

  /** The day of era of a date given by era, year of era and March-based month. */
  lemma EraDayOfParts(era: int, yoe: int, mp: int, c: Civil) returns (doe: int)
    requires 0 <= yoe <= 399 && 0 <= mp <= 11 && 1 <= c.day
    requires c.year == era * 400 + yoe + (if mp < 10 then 0 else 1) && c.month == CivilMonth(mp)
    requires DayOfYearExists(yoe, MonthStart(mp) + c.day - 1)
    requires mp < 11 ==> MonthStart(mp) + c.day - 1 < MonthStart(mp + 1)
    ensures 0 <= doe <= 146096 && DaysFromCivil(c.year, c.month, c.day) == era * 146097 + doe - 719468
    ensures DateOfEraDay(era, doe) == c
  {
    var doy := MonthStart(mp) + c.day - 1;
    doe := DayOfEra(yoe, doy);
    YearOfEraInverse(yoe, doy);
    DaysFromCivilOf(era, yoe, mp, c);
    DateOfEraDayOf(era, yoe, mp, c);
  }

  /** Day number `z` of day `doe` of era `era` is read back as that day of that era. */
  lemma CivilFromEraDay(era: int, doe: int, z: int)
    requires 0 <= doe <= 146096 && z == era * 146097 + doe - 719468
    ensures CivilFromDays(z) == DateOfEraDay(era, doe)
  {
    assert (z + 719468) / 146097 == era && (z + 719468) % 146097 == doe;
  }

  /** The date on a day of an era given by its year of era, March-based month and day of month. */
  lemma DateOfEraDayOf(era: int, yoe: int, mp: int, c: Civil)
    requires 0 <= yoe <= 399 && 0 <= mp <= 11 && 1 <= c.day
    requires c.year == era * 400 + yoe + (if mp < 10 then 0 else 1) && c.month == CivilMonth(mp)
    requires DayOfYearExists(yoe, MonthStart(mp) + c.day - 1)
    requires mp < 11 ==> MonthStart(mp) + c.day - 1 < MonthStart(mp + 1)
    ensures DateOfEraDay(era, DayOfEra(yoe, MonthStart(mp) + c.day - 1)) == c
  {
    var doy := MonthStart(mp) + c.day - 1;
    var doe := DayOfEra(yoe, doy);
    YearOfEraInverse(yoe, doy);
    assert doe - DayOfEra(yoe, 0) == doy;
    MonthOfDayUnique(mp, doy);
  }

  /** ECMAScript MakeDay(year, month, date): `month` counts from 0 and may leave 0..11, in which case
      it carries into the year; `date` is added to the first of that month. */
  function MakeDay(year: int, month0: int, date: int): (z: int)
  {
    DaysFromCivil(year + month0 / 12, month0 % 12 + 1, 1) + date - 1
  }

  /** Within a March-based year, a month ends the day before the next one starts. */
  lemma MonthsAreAdjacentInYear(era: int, yoe: int, mp: int, y: int, m: int)
    requires 0 <= yoe <= 399 && 0 <= mp <= 10
    requires y == era * 400 + yoe + (if mp < 10 then 0 else 1) && m == CivilMonth(mp)
    ensures var n := NextMonth(y, m);
            DaysFromCivil(y, m, DaysInMonth(y, m)) + 1 == DaysFromCivil(n.year, n.month, 1)
  {
    var len := DaysInMonth(y, m);
    var n := NextMonth(y, m);
    MonthStartLength(mp);
    assert len == MonthStart(mp + 1) - MonthStart(mp);
    assert n.year == era * 400 + yoe + (if mp + 1 < 10 then 0 else 1) && n.month == CivilMonth(mp + 1);
    DaysFromCivilOf(era, yoe, mp, Civil(y, m, len));
    DaysFromCivilOf(era, yoe, mp + 1, n);
    assert DayOfEra(yoe, MonthStart(mp) + len - 1) + 1 == DayOfEra(yoe, MonthStart(mp + 1) + n.day - 1);
  }

  /** A March-based year of an era has 366 days when it ends in a leap year, else 365. */
  lemma YearLength(yoe: int)
    requires 0 <= yoe <= 398
    ensures DayOfEra(yoe + 1, 0) - DayOfEra(yoe, 0) ==
            365 + (if yoe % 4 == 3 && yoe % 100 != 99 then 1 else 0)
  {
    var c, q, r := yoe / 100, yoe % 100 / 4, yoe % 4;
    assert yoe == 100 * c + 4 * q + r;
    assert yoe / 4 == 25 * c + q && yoe / 100 == c;
    if r == 3 && q == 24 {
      assert (yoe + 1) / 4 == 25 * c + 25 && (yoe + 1) / 100 == c + 1;
    } else if r == 3 {
      assert (yoe + 1) / 4 == 25 * c + q + 1 && (yoe + 1) / 100 == c;
    } else {
      assert (yoe + 1) / 4 == 25 * c + q && (yoe + 1) / 100 == c;
    }
  }

  /** February ends the day before March 1 of the same year. */
  lemma FebruaryMeetsMarch(y: int)
    ensures DaysFromCivil(y, 2, DaysInMonth(y, 2)) + 1 == DaysFromCivil(y, 3, 1)
  {
    var era, yoe := (y - 1) / 400, (y - 1) % 400;
    assert y == era * 400 + yoe + 1;
    if yoe == 399 {
      FebruaryMeetsMarchAtEraEnd(era, y);
    } else {
      FebruaryMeetsMarchInEra(era, yoe, y);
    }
  }

  /** February of a year that does not end an era. */
  lemma FebruaryMeetsMarchInEra(era: int, yoe: int, y: int)
    requires 0 <= yoe <= 398 && y == era * 400 + yoe + 1
    ensures DaysFromCivil(y, 2, DaysInMonth(y, 2)) + 1 == DaysFromCivil(y, 3, 1)
  {
    var len := DaysInMonth(y, 2);
    LeapYearOfEra(era, yoe);
    assert IsLeapYear(y) <==> yoe % 4 == 3 && yoe % 100 != 99;
    DaysFromCivilOf(era, yoe, 11, Civil(y, 2, len));
    assert MonthStart(11) == 337;
    YearLength(yoe);
    DaysFromCivilOf(era, yoe + 1, 0, Civil(y, 3, 1));
    assert DayOfEra(yoe, 336 + len) == DayOfEra(yoe, 0) + 336 + len;
  }

  /** February of the year that ends an era: a leap year, since it is divisible by 400. */
  lemma FebruaryMeetsMarchAtEraEnd(era: int, y: int)
    requires y == era * 400 + 400
    ensures DaysFromCivil(y, 2, DaysInMonth(y, 2)) + 1 == DaysFromCivil(y, 3, 1)
  {
    LeapYearOfEra(era, 399);
    assert IsLeapYear(y);
    assert DaysInMonth(y, 2) == 29;
    DaysFromCivilOf(era, 399, 11, Civil(y, 2, 29));
    assert MonthStart(11) == 337;
    DaysFromCivilOf(era + 1, 0, 0, Civil(y, 3, 1));
    assert DayOfEra(399, 365) == 146096;
  }

  /** The last day of a month and the first of the next are neighbours. */
  lemma MonthsAreAdjacent(y: int, m: int)
    requires 1 <= m <= 12
    ensures var n := NextMonth(y, m);
            DaysFromCivil(y, m, DaysInMonth(y, m)) + 1 == DaysFromCivil(n.year, n.month, 1)
  {
    if m == 2 {
      FebruaryMeetsMarch(y);
    } else {
      var y' := if m <= 2 then y - 1 else y;
      var era, yoe, mp := y' / 400, y' % 400, (m + 9) % 12;
      assert y' == era * 400 + yoe;
      assert mp <= 10 && m == CivilMonth(mp);
      MonthsAreAdjacentInYear(era, yoe, mp, y, m);
    }
  }
}
