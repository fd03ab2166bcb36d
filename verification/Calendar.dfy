/** Civil dates of workbook serials: the proleptic Gregorian conversion and
    the 1900 date system with its two special serials. */
module Calendar {
  import opened Prelude

  datatype Date = Date(year: int, month: int, day: int)

  // ------------------------------------------------------------- the calendar

  predicate IsLeap(year: int) {
    year % 4 == 0 && (year % 100 != 0 || year % 400 == 0)
  }

  function MonthLength(year: int, month: int): int {
    if month == 2 then (if IsLeap(year) then 29 else 28)
    else if month == 4 || month == 6 || month == 9 || month == 11 then 30
    else 31
  }

  predicate IsDate(d: Date) {
    1 <= d.month <= 12 && 1 <= d.day <= MonthLength(d.year, d.month)
  }

  /** The day after, by the lengths of months and years alone. */
  function NextDay(d: Date): Date {
    if d.day < MonthLength(d.year, d.month) then d.(day := d.day + 1)
    else if d.month < 12 then Date(d.year, d.month + 1, 1)
    else Date(d.year + 1, 1, 1)
  }

  predicate Earlier(a: Date, b: Date) {
    || a.year < b.year
    || (a.year == b.year && (a.month < b.month || (a.month == b.month && a.day < b.day)))
  }

  // ---------------------------------------------------------- the conversions

  /** Days from 1970-01-01. */
  function DaysFromCivil(d: Date): int {
    var year := if d.month <= 2 then d.year - 1 else d.year;
    var era := year / 400;
    var yearOfEra := year - era * 400;
    var monthIndex := (d.month + 9) % 12;
    var dayOfYear := (153 * monthIndex + 2) / 5 + d.day - 1;
    var dayOfEra := yearOfEra * 365 + yearOfEra / 4 - yearOfEra / 100 + dayOfYear;
    era * 146097 + dayOfEra - 719468
  }

  /** The year a day of a 400-year era falls in. */
  function YearOfEra(dayOfEra: int): int {
    (dayOfEra - dayOfEra / 1460 + dayOfEra / 36524 - dayOfEra / 146096) / 365
  }

  function CivilFromDays(days: int): Date {
    var shifted := days + 719468;
    var era := shifted / 146097;
    var dayOfEra := shifted - era * 146097;
    var yearOfEra := YearOfEra(dayOfEra);
    var dayOfYear := dayOfEra - (365 * yearOfEra + yearOfEra / 4 - yearOfEra / 100);
    var monthIndex := (5 * dayOfYear + 2) / 153;
    var day := dayOfYear - (153 * monthIndex + 2) / 5 + 1;
    var month := if monthIndex < 10 then monthIndex + 3 else monthIndex - 9;
    var year := yearOfEra + era * 400 + if month <= 2 then 1 else 0;
    Date(year, month, day)
  }

  // --------------------------------------------------- years that begin in March

  function YearStart(y: int): int {
    365 * y + y / 4 - y / 100
  }

  /** Days in the year of an era that begins on the first of March. */
  function YearLength(y: int): int {
    if IsLeap(y + 1) then 366 else 365
  }

  lemma YearEnd(y: int)
    requires 0 <= y < 400
    ensures YearStart(y) + YearLength(y) == if y == 399 then 146097 else YearStart(y + 1)
  {}

  /** With the year written as `100h + 4q + r`, the corrections for leap days
      in the era are those of its centuries and quadrennia. */
  lemma YearOfEraIsExact(y: int, doy: int)
    requires 0 <= y < 400 && 0 <= doy < YearLength(y)
    ensures 0 <= YearStart(y) + doy < 146097 && YearOfEra(YearStart(y) + doy) == y
  {
    var h, t := y / 100, y % 100;
    var q, r := t / 4, t % 4;
    var doe := YearStart(y) + doy;
    StartInParts(h, q, r);
    LeapDayIsLast(h, q, r, doy);
    var centuries := doe / 36524 - doe / 146096;
    CenturiesOf(h, 1461 * q + 365 * r + doy);
    assert centuries == h;
    var x := 24 * h + q + 365 * r + doy;
    assert doe == 1460 * (25 * h + q) + x;
    assert doe / 1460 == 25 * h + q + x / 1460;
    assert 0 <= doy - x / 1460 <= 364;
    Quotient365(doe - doe / 1460 + centuries, y);
  }

  lemma StartInParts(h: int, q: int, r: int)
    requires 0 <= h < 4 && 0 <= q < 25 && 0 <= r < 4
    ensures YearStart(100 * h + 4 * q + r) == 36524 * h + 1461 * q + 365 * r
  {}

  /** A year has a 366th day only when the next is a leap year. */
  lemma LeapDayIsLast(h: int, q: int, r: int, doy: int)
    requires 0 <= h < 4 && 0 <= q < 25 && 0 <= r < 4 && 0 <= doy < YearLength(100 * h + 4 * q + r)
    ensures doy <= 365
    ensures doy == 365 ==> r == 3 && (q < 24 || h == 3)
  {}

  lemma CenturiesOf(h: int, w: int)
    requires 0 <= h < 4 && 0 <= w <= 36524 && (w == 36524 ==> h == 3)
    ensures var doe := 36524 * h + w; doe / 36524 - doe / 146096 == h
  {}

  lemma Quotient365(n: int, y: int)
    requires 365 * y <= n <= 365 * y + 364
    ensures n / 365 == y
  {}

  /** Every day of an era falls in a year. */
  lemma {:induction false} YearExists(doe: int, last: int) returns (y: int)
    requires 0 <= last < 400 && 0 <= doe < YearStart(last) + YearLength(last)
    ensures 0 <= y <= last && 0 <= doe - YearStart(y) < YearLength(y)
    decreases last
  {
    if YearStart(last) <= doe {
      y := last;
    } else {
      YearEnd(last - 1);
      y := YearExists(doe, last - 1);
    }
  }

  // --------------------------------------------------------------------- months

  function MonthStart(m: int): int {
    (153 * m + 2) / 5
  }

  function CivilMonth(m: int): int {
    if m < 10 then m + 3 else m - 9
  }

  /** Months counted from March have their civil lengths, February at the end. */
  lemma MonthEnds(year: int, m: int)
    requires 0 <= m < 12
    ensures MonthStart(m) + MonthLength(year, CivilMonth(m)) ==
            if m < 11 then MonthStart(m + 1) else if IsLeap(year) then 366 else 365
  {}

  lemma MonthIsExact(m: int, day: int)
    requires 0 <= m < 12 && MonthStart(m) <= day && day < (if m == 11 then 366 else MonthStart(m + 1))
    ensures (5 * day + 2) / 153 == m
  {}

  lemma {:induction false} MonthExists(doy: int, last: int) returns (m: int)
    requires 0 <= last < 12 && 0 <= doy < (if last == 11 then 366 else MonthStart(last + 1))
    ensures 0 <= m <= last && MonthStart(m) <= doy < (if m == 11 then 366 else MonthStart(m + 1))
    decreases last
  {
    if MonthStart(last) <= doy {
      m := last;
    } else {
      m := MonthExists(doy, last - 1);
    }
  }

  // ------------------------------------------------------------------ bijection

  /** A date as an era, a year of it that begins in March, a month of that year
      and a day of the month. */
  ghost predicate InParts(d: Date, era: int, y: int, m: int) {
    && 0 <= y < 400 && 0 <= m < 12
    && d.month == CivilMonth(m) && d.year == era * 400 + y + (if m < 10 then 0 else 1)
    && 1 <= d.day <= MonthLength(d.year, d.month)
  }

  function DayOf(era: int, y: int, m: int, day: int): int {
    era * 146097 + YearStart(y) + MonthStart(m) + day - 1 - 719468
  }

  lemma DateHasParts(d: Date) returns (era: int, y: int, m: int)
    requires IsDate(d)
    ensures InParts(d, era, y, m)
  {
    var year := if d.month <= 2 then d.year - 1 else d.year;
    era, y, m := year / 400, year % 400, (d.month + 9) % 12;
  }

  lemma LeapOfEra(era: int, y: int)
    ensures IsLeap(era * 400 + y) <==> IsLeap(y)
  {
    Mod4(100 * era, y);
    Mod100(4 * era, y);
    Mod400(era, y);
  }

  lemma Mod4(k: int, a: int)
    ensures (4 * k + a) % 4 == a % 4
  {}

  lemma Mod100(k: int, a: int)
    ensures (100 * k + a) % 100 == a % 100
  {}

  lemma Mod400(k: int, a: int)
    ensures (400 * k + a) % 400 == a % 400
  {}

  lemma DaysInParts(d: Date, era: int, y: int, m: int)
    requires InParts(d, era, y, m)
    ensures DaysFromCivil(d) == DayOf(era, y, m, d.day)
  {
    var year := if d.month <= 2 then d.year - 1 else d.year;
    assert year == era * 400 + y;
    assert year / 400 == era;
    assert (d.month + 9) % 12 == m;
  }

  /** Where a date's day lies in its year. */
  lemma DayOfYear(d: Date, era: int, y: int, m: int)
    requires InParts(d, era, y, m)
    ensures var doy := MonthStart(m) + d.day - 1;
            && MonthStart(m) <= doy < YearLength(y)
            && doy < (if m == 11 then 366 else MonthStart(m + 1))
  {
    hide IsLeap;
    MonthEnds(d.year, m);
    if m == 11 {
      LeapOfEra(era, y + 1);
    } else {
      assert MonthStart(m + 1) <= MonthStart(11) == 337;
    }
  }

  lemma CivilInParts(d: Date, era: int, y: int, m: int)
    requires InParts(d, era, y, m)
    ensures CivilFromDays(DayOf(era, y, m, d.day)) == d
  {
    hide IsLeap, YearLength, MonthLength, YearOfEra;
    var doy := MonthStart(m) + d.day - 1;
    DayOfYear(d, era, y, m);
    YearOfEraIsExact(y, doy);
    MonthIsExact(m, doy);
    var shifted, doe := DayOf(era, y, m, d.day) + 719468, YearStart(y) + doy;
    assert shifted == era * 146097 + doe;
    assert shifted / 146097 == era;
  }

  /** Every date comes back from its day count. */
  lemma DateRoundTrips(d: Date)
    requires IsDate(d)
    ensures CivilFromDays(DaysFromCivil(d)) == d
  {
    var era, y, m := DateHasParts(d);
    DaysInParts(d, era, y, m);
    CivilInParts(d, era, y, m);
  }

  /** Every day count is that of a date. */
  lemma DayHasDate(n: int) returns (d: Date)
    ensures IsDate(d) && DaysFromCivil(d) == n
  {
    hide YearOfEra;
    var shifted := n + 719468;
    var era, doe := shifted / 146097, shifted % 146097;
    var y := YearExists(doe, 399);
    var doy := doe - YearStart(y);
    var m := MonthExists(doy, 11);
    var year := era * 400 + y + (if m < 10 then 0 else 1);
    d := Date(year, CivilMonth(m), doy - MonthStart(m) + 1);
    MonthEnds(year, m);
    LeapOfEra(era, y + 1);
    DaysInParts(d, era, y, m);
  }

  lemma DayRoundTrips(n: int)
    ensures IsDate(CivilFromDays(n)) && DaysFromCivil(CivilFromDays(n)) == n
  {
    var d := DayHasDate(n);
    DateRoundTrips(d);
  }

  // ------------------------------------------------------------ consecutive days

  lemma NextDayIsDate(d: Date)
    requires IsDate(d)
    ensures IsDate(NextDay(d)) && Earlier(d, NextDay(d))
  {}

  /** The next day has the next day count: within a month, at a month's end,
      and on the last of February, where these years end. */
  lemma NextDayCounts(d: Date)
    requires IsDate(d)
    ensures DaysFromCivil(NextDay(d)) == DaysFromCivil(d) + 1
  {
    hide DaysFromCivil, IsLeap;
    var era, y, m := DateHasParts(d);
    var next := NextDay(d);
    NextDayIsDate(d);
    DaysInParts(d, era, y, m);
    MonthEnds(d.year, m);
    if next.day == d.day + 1 {
      DaysInParts(next, era, y, m);
    } else if m < 11 {
      DaysInParts(next, era, y, m + 1);
    } else {
      YearTurns(d, era, y);
    }
  }

  lemma YearTurns(d: Date, era: int, y: int)
    requires InParts(d, era, y, 11) && d.day == MonthLength(d.year, 2)
    ensures DaysFromCivil(Date(d.year, 3, 1)) == DayOf(era, y, 11, d.day) + 1
  {
    hide IsLeap, DaysFromCivil;
    assert d.year == era * 400 + (y + 1);
    LeapOfEra(era, y + 1);
    YearEnd(y);
    MonthEnds(d.year, 11);
    if y == 399 {
      DaysInParts(Date(d.year, 3, 1), era + 1, 0, 0);
    } else {
      DaysInParts(Date(d.year, 3, 1), era, y + 1, 0);
    }
  }

  /** Consecutive day counts are consecutive days. */
  lemma DaysAreConsecutive(n: int)
    ensures CivilFromDays(n + 1) == NextDay(CivilFromDays(n))
  {
    hide CivilFromDays, DaysFromCivil, IsLeap, IsDate, NextDay;
    DayRoundTrips(n);
    var d := CivilFromDays(n);
    NextDayIsDate(d);
    NextDayCounts(d);
    DateRoundTrips(NextDay(d));
  }

  lemma DayZero()
    ensures CivilFromDays(0) == Date(1970, 1, 1)
  {
    hide CivilFromDays, DaysFromCivil;
    KnownDay(Date(1970, 1, 1), 4, 369, 10);
  }

  lemma {:induction false} LaterDaysAreLater(a: int, b: int)
    requires a < b
    ensures Earlier(CivilFromDays(a), CivilFromDays(b))
    decreases b - a
  {
    hide CivilFromDays, IsDate, NextDay;
    DaysAreConsecutive(b - 1);
    DayRoundTrips(b - 1);
    NextDayIsDate(CivilFromDays(b - 1));
    if a < b - 1 {
      LaterDaysAreLater(a, b - 1);
    }
  }

  // -------------------------------------------------------------------- serials

  /** The date shown for a serial in the 1900 system, which counts a day zero
      and a 29th of February that never were. */
  function Serial1900(days: int): Date {
    if days == 0 then Date(1900, 1, 0)
    else if days == 60 then Date(1900, 2, 29)
    else if days < 60 then CivilFromDays(DaysFromCivil(Date(1899, 12, 31)) + days)
    else CivilFromDays(DaysFromCivil(Date(1899, 12, 30)) + days)
  }

  /** Nothing is shown outside the years 1900 to 9999. */
  function WriteDate(days: int, date1904: bool): Option<Date> {
    var d := if date1904 then CivilFromDays(DaysFromCivil(Date(1904, 1, 1)) + days) else Serial1900(days);
    if 1900 <= d.year <= 9999 then Some(d) else None
  }

  lemma Bases()
    ensures DaysFromCivil(Date(1899, 12, 31)) == -25568 && DaysFromCivil(Date(1899, 12, 30)) == -25569
    ensures DaysFromCivil(Date(1904, 1, 1)) == -24107
    ensures CivilFromDays(-25567) == Date(1900, 1, 1) && CivilFromDays(-25568) == Date(1899, 12, 31)
    ensures CivilFromDays(-25509) == Date(1900, 2, 28) && CivilFromDays(-25508) == Date(1900, 3, 1)
    ensures CivilFromDays(2932896) == Date(9999, 12, 31) && CivilFromDays(2932897) == Date(10000, 1, 1)
  {
    hide CivilFromDays, DaysFromCivil;
    KnownDay(Date(1899, 12, 30), 4, 299, 9);
    KnownDay(Date(1899, 12, 31), 4, 299, 9);
    KnownDay(Date(1900, 1, 1), 4, 299, 10);
    KnownDay(Date(1900, 2, 28), 4, 299, 11);
    KnownDay(Date(1900, 3, 1), 4, 300, 0);
    KnownDay(Date(1904, 1, 1), 4, 303, 10);
    KnownDay(Date(9999, 12, 31), 24, 399, 9);
    KnownDay(Date(10000, 1, 1), 24, 399, 10);
  }

  lemma KnownDay(d: Date, era: int, y: int, m: int)
    requires InParts(d, era, y, m)
    ensures DaysFromCivil(d) == DayOf(era, y, m, d.day) && CivilFromDays(DaysFromCivil(d)) == d
  {
    hide CivilFromDays, DaysFromCivil;
    DaysInParts(d, era, y, m);
    CivilInParts(d, era, y, m);
  }

  /** Later serials show later dates, the two special ones included. */
  lemma SerialsIncrease(a: int, b: int)
    requires a < b
    ensures Earlier(Serial1900(a), Serial1900(b))
  {
    hide CivilFromDays, DaysFromCivil;
    Bases();
    if b < 60 && a != 0 && b != 0 {
      LaterDaysAreLater(a - 25568, b - 25568);
    } else if a > 60 {
      LaterDaysAreLater(a - 25569, b - 25569);
    } else {
      AroundZero(a);
      AroundZero(b);
      AroundSixty(a);
      AroundSixty(b);
    }
  }

  lemma AroundZero(s: int)
    ensures s < 0 ==> Earlier(Serial1900(s), Date(1900, 1, 0))
    ensures s > 0 ==> Earlier(Date(1900, 1, 0), Serial1900(s))
  {
    hide CivilFromDays, DaysFromCivil;
    Bases();
    if s < 0 {
      LaterDaysAreLater(s - 25568, -25568);
    } else if 1 < s < 60 {
      LaterDaysAreLater(-25567, s - 25568);
    } else if s > 61 {
      LaterDaysAreLater(-25508, s - 25569);
    }
  }

  lemma AroundSixty(s: int)
    ensures s < 60 ==> Earlier(Serial1900(s), Date(1900, 2, 29))
    ensures s > 60 ==> Earlier(Date(1900, 2, 29), Serial1900(s))
  {
    hide CivilFromDays, DaysFromCivil;
    Bases();
    if s < 59 && s != 0 {
      LaterDaysAreLater(s - 25568, -25509);
    } else if s > 61 {
      LaterDaysAreLater(-25508, s - 25569);
    }
  }

  /** A serial is shown exactly when it lies in the years 1900 to 9999; the
      1904 system counts from four years later. */
  lemma ShownSerials(days: int)
    ensures WriteDate(days, false).Some? <==> 0 <= days < 2958466
    ensures WriteDate(days, true).Some? <==> -1460 <= days < 2957004
  {
    hide CivilFromDays, DaysFromCivil;
    Bases();
    InYears(days - 24107);
    if days < 60 {
      InYears(days - 25568);
    } else if days > 60 {
      InYears(days - 25569);
    }
  }

  /** `n` days after a date, day by day. */
  function DaysAfter(d: Date, n: nat): Date {
    if n == 0 then d else NextDay(DaysAfter(d, n - 1))
  }

  lemma {:induction false} CountsDays(from: int, n: nat)
    ensures CivilFromDays(from + n) == DaysAfter(CivilFromDays(from), n)
  {
    hide CivilFromDays, NextDay;
    if n > 0 {
      CountsDays(from, n - 1);
      DaysAreConsecutive(from + n - 1);
    }
  }

  /** The date shown for each serial. The 1900 system counts days from the first
      of January 1900, and from the first of March after its day that never
      was; the 1904 system from the first of January 1904, forth and back. */
  lemma ShownDates(days: int)
    ensures 0 <= days < 2958466 ==>
              && WriteDate(days, false).Some?
              && var d := WriteDate(days, false).value;
              if days == 0 then d == Date(1900, 1, 0)
              else if days == 60 then d == Date(1900, 2, 29)
              else
                && IsDate(d)
                && (days < 60 ==> d == DaysAfter(Date(1900, 1, 1), days - 1))
                && (days > 60 ==> d == DaysAfter(Date(1900, 3, 1), days - 61))
    ensures -1460 <= days < 2957004 ==>
              && WriteDate(days, true).Some?
              && var d := WriteDate(days, true).value;
              && IsDate(d)
              && if days >= 0 then d == DaysAfter(Date(1904, 1, 1), days)
                 else DaysAfter(d, -days) == Date(1904, 1, 1)
  {
    hide CivilFromDays, DaysFromCivil, IsDate, DaysAfter;
    Bases();
    ShownSerials(days);
    DayRoundTrips(days - 24107);
    KnownDay(Date(1904, 1, 1), 4, 303, 10);
    if days >= 0 {
      CountsDays(-24107, days);
    } else {
      CountsDays(days - 24107, -days);
    }
    if 0 < days < 60 {
      DayRoundTrips(days - 25568);
      CountsDays(-25567, days - 1);
    } else if days > 60 {
      DayRoundTrips(days - 25569);
      CountsDays(-25508, days - 61);
    }
  }

  lemma InYears(n: int)
    ensures 1900 <= CivilFromDays(n).year <= 9999 <==> -25567 <= n <= 2932896
  {
    hide CivilFromDays, DaysFromCivil;
    Bases();
    if n < -25568 {
      LaterDaysAreLater(n, -25568);
    } else if n > 2932897 {
      LaterDaysAreLater(2932897, n);
    } else if -25567 < n < 2932896 {
      LaterDaysAreLater(-25567, n);
      LaterDaysAreLater(n, 2932896);
    }
  }
}
