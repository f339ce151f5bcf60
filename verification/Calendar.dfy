/**
  Wall-clock time of a fixed-offset location: whole seconds since 0001-01-01 00:00:00 on the
  proleptic Gregorian calendar, with the `time.Time` accessors and constructors that
  `Schedule.Next` uses.
 */
module Calendar {

  const DAY := 86400
  const HOUR := 3600
  const MINUTE := 60

  predicate IsLeap(y: int) { y % 4 == 0 && (y % 100 != 0 || y % 400 == 0) }

  function YearDays(y: int): int { if IsLeap(y) then 366 else 365 }

  /** Days from 0001-01-01 to the first day of year `y`. */
  function DaysBeforeYear(y: int): int
    decreases if y >= 1 then y else 2 - y
  {
    if y == 1 then 0
    else if y > 1 then DaysBeforeYear(y - 1) + YearDays(y - 1)
    else DaysBeforeYear(y + 1) - YearDays(y)
  }

  function DaysIn(y: int, m: int): (n: int)
    requires 1 <= m <= 12
    ensures 28 <= n <= 31
  {
    if m == 2 then (if IsLeap(y) then 29 else 28)
    else if m == 4 || m == 6 || m == 9 || m == 11 then 30
    else 31
  }

  /** Days from the first day of year `y` to the first day of its month `m`; month 13 is the next year. */
  function DaysBeforeMonth(y: int, m: int): int
    requires 1 <= m <= 13
  {
    if m == 1 then 0 else DaysBeforeMonth(y, m - 1) + DaysIn(y, m - 1)
  }

  function FirstOfMonth(y: int, m: int): int
    requires 1 <= m <= 13
  {
    DaysBeforeYear(y) + DaysBeforeMonth(y, m)
  }

  lemma YearLength(y: int)
    ensures DaysBeforeYear(y + 1) == DaysBeforeYear(y) + YearDays(y)
  {
  }

  lemma YearIsTwelveMonths(y: int)
    ensures DaysBeforeYear(y + 1) == FirstOfMonth(y, 13)
  {
    YearLength(y);
    assert DaysBeforeMonth(y, 2) == 31;
    assert DaysBeforeMonth(y, 3) == 31 + DaysIn(y, 2);
    assert DaysBeforeMonth(y, 5) == DaysBeforeMonth(y, 3) + 61;
    assert DaysBeforeMonth(y, 7) == DaysBeforeMonth(y, 5) + 61;
    assert DaysBeforeMonth(y, 9) == DaysBeforeMonth(y, 7) + 62;
    assert DaysBeforeMonth(y, 11) == DaysBeforeMonth(y, 9) + 61;
    assert DaysBeforeMonth(y, 13) == DaysBeforeMonth(y, 11) + 61;
  }

  lemma {:induction false} YearsOrdered(a: int, b: int)
    requires a <= b
    ensures DaysBeforeYear(a) + 365 * (b - a) <= DaysBeforeYear(b)
    decreases b - a
  {
    if a < b {
      YearLength(b - 1);
      YearsOrdered(a, b - 1);
    }
  }

  // ---- from day numbers to dates ----

  function YearFrom(day: int, y: int): (r: int)
    ensures DaysBeforeYear(r) <= day < DaysBeforeYear(r + 1)
    decreases day < DaysBeforeYear(y), if day < DaysBeforeYear(y) then DaysBeforeYear(y) - day else day - DaysBeforeYear(y)
  {
    YearLength(y);
    YearLength(y - 1);
    if day < DaysBeforeYear(y) then YearFrom(day, y - 1)
    else if day >= DaysBeforeYear(y + 1) then YearFrom(day, y + 1)
    else y
  }

  function MonthFrom(day: int, y: int, m: int): (r: int)
    requires 1 <= m <= 12
    requires FirstOfMonth(y, m) <= day < FirstOfMonth(y, 13)
    ensures m <= r <= 12 && FirstOfMonth(y, r) <= day < FirstOfMonth(y, r + 1)
    decreases 12 - m
  {
    if day < FirstOfMonth(y, m + 1) then m else MonthFrom(day, y, m + 1)
  }

  function DayNumber(t: int): int { t / DAY }

  function Year(t: int): int { YearFrom(DayNumber(t), 1) }

  function Month(t: int): (m: int)
    ensures 1 <= m <= 12
  {
    YearIsTwelveMonths(Year(t));
    MonthFrom(DayNumber(t), Year(t), 1)
  }

  function Day(t: int): (d: int)
    ensures 1 <= d <= 31
  {
    YearIsTwelveMonths(Year(t));
    DayNumber(t) - FirstOfMonth(Year(t), Month(t)) + 1
  }

  /** 0 is Sunday; 0001-01-01 was a Monday. */
  function Weekday(t: int): (w: int)
    ensures 0 <= w < 7
  {
    (DayNumber(t) + 1) % 7
  }

  function Hour(t: int): (h: int)
    ensures 0 <= h < 24
  {
    t % DAY / HOUR
  }

  function Minute(t: int): (m: int)
    ensures 0 <= m < 60
  {
    t % HOUR / MINUTE
  }

  function Second(t: int): (s: int)
    ensures 0 <= s < 60
  {
    t % MINUTE
  }

  /** `time.Date`: months outside 1..12 carry into the year, everything else adds up. */
  function Date(y: int, m: int, d: int, hour: int, minute: int, second: int): int {
    var carry := (m - 1) / 12;
    (FirstOfMonth(y + carry, (m - 1) % 12 + 1) + d - 1) * DAY + hour * HOUR + minute * MINUTE + second
  }

  /** `Time.AddDate`. */
  function AddDate(t: int, years: int, months: int, days: int): int {
    Date(Year(t) + years, Month(t) + months, Day(t) + days, Hour(t), Minute(t), Second(t))
  }

  // ---- the accessors invert the constructor ----

  lemma YearUnique(day: int, y: int)
    requires DaysBeforeYear(y) <= day < DaysBeforeYear(y + 1)
    ensures YearFrom(day, 1) == y
  {
    var r := YearFrom(day, 1);
    if r < y {
      YearsOrdered(r + 1, y);
    } else if y < r {
      YearsOrdered(y + 1, r);
    }
  }

  lemma {:induction false} MonthsOrdered(y: int, a: int, b: int)
    requires 1 <= a <= b <= 13
    ensures FirstOfMonth(y, a) <= FirstOfMonth(y, b)
    decreases b - a
  {
    if a < b {
      MonthsOrdered(y, a, b - 1);
    }
  }

  lemma MonthUnique(day: int, y: int, m: int)
    requires 1 <= m <= 12 && FirstOfMonth(y, m) <= day < FirstOfMonth(y, m + 1)
    ensures FirstOfMonth(y, 1) <= day < FirstOfMonth(y, 13)
    ensures MonthFrom(day, y, 1) == m
  {
    MonthsOrdered(y, 1, m);
    MonthsOrdered(y, m + 1, 13);
    OneMonth(day, y, m, MonthFrom(day, y, 1));
  }

  lemma OneMonth(day: int, y: int, m: int, r: int)
    requires 1 <= m <= 12 && FirstOfMonth(y, m) <= day < FirstOfMonth(y, m + 1)
    requires 1 <= r <= 12 && FirstOfMonth(y, r) <= day < FirstOfMonth(y, r + 1)
    ensures m == r
  {
    if r < m {
      MonthsOrdered(y, r + 1, m);
    } else if m < r {
      MonthsOrdered(y, m + 1, r);
    }
  }

  /** Every second of a day that lies in month `m` of year `y` reads back as that date. */
  lemma FieldsOf(t: int, y: int, m: int)
    requires 1 <= m <= 12
    requires FirstOfMonth(y, m) <= DayNumber(t) < FirstOfMonth(y, m + 1)
    ensures Year(t) == y && Month(t) == m && Day(t) == DayNumber(t) - FirstOfMonth(y, m) + 1
  {
    MonthUnique(DayNumber(t), y, m);
    YearIsTwelveMonths(y);
    YearUnique(DayNumber(t), y);
  }

  /** No month carries out of 1..12. */
  lemma DateInYear(y: int, m: int, d: int, hour: int, minute: int, second: int)
    requires 1 <= m <= 12
    ensures Date(y, m, d, hour, minute, second) ==
            (FirstOfMonth(y, m) + d - 1) * DAY + hour * HOUR + minute * MINUTE + second
  {
    assert (m - 1) / 12 == 0 && (m - 1) % 12 == m - 1;
  }

  lemma SplitDay(q: int, r: int)
    requires 0 <= r < DAY
    ensures (q * DAY + r) / DAY == q && (q * DAY + r) % DAY == r
  {
  }

  lemma SplitHour(q: int, r: int)
    requires 0 <= r < HOUR
    ensures (q * HOUR + r) / HOUR == q && (q * HOUR + r) % HOUR == r
  {
  }

  lemma SplitMinute(q: int, r: int)
    requires 0 <= r < MINUTE
    ensures (q * MINUTE + r) / MINUTE == q && (q * MINUTE + r) % MINUTE == r
  {
  }

  lemma ClockParts(n: int, hour: int, minute: int, second: int)
    requires 0 <= hour < 24 && 0 <= minute < 60 && 0 <= second < 60
    ensures var t := n * DAY + hour * HOUR + minute * MINUTE + second;
      && DayNumber(t) == n && Hour(t) == hour && Minute(t) == minute && Second(t) == second
  {
    SplitDay(n, hour * HOUR + minute * MINUTE + second);
    SplitHour(hour, minute * MINUTE + second);
    SplitHour(24 * n + hour, minute * MINUTE + second);
    SplitMinute(minute, second);
    SplitMinute(1440 * n + 60 * hour + minute, second);
  }

  lemma ClockOf(t: int)
    ensures DayNumber(t) * DAY + Hour(t) * HOUR + Minute(t) * MINUTE + Second(t) == t
  {
    var d, r := t / DAY, t % DAY;
    assert t == d * DAY + r;
    var h, q := r / HOUR, r % HOUR;
    assert r == h * HOUR + q;
    SplitHour(24 * d + h, q);
    var m, s := q / MINUTE, q % MINUTE;
    assert q == m * MINUTE + s;
    SplitMinute(60 * (24 * d + h) + m, s);
  }

  /** A valid date and clock time survive `time.Date` followed by the accessors. */
  lemma DateRoundTrip(y: int, m: int, d: int, hour: int, minute: int, second: int)
    requires 1 <= m <= 12 && 1 <= d <= DaysIn(y, m)
    requires 0 <= hour < 24 && 0 <= minute < 60 && 0 <= second < 60
    ensures var t := Date(y, m, d, hour, minute, second);
      && Year(t) == y && Month(t) == m && Day(t) == d
      && Hour(t) == hour && Minute(t) == minute && Second(t) == second
  {
    DateInYear(y, m, d, hour, minute, second);
    ClockParts(FirstOfMonth(y, m) + d - 1, hour, minute, second);
    FieldsOf(Date(y, m, d, hour, minute, second), y, m);
  }

  lemma DayInMonth(t: int)
    ensures FirstOfMonth(Year(t), Month(t)) <= DayNumber(t) < FirstOfMonth(Year(t), Month(t) + 1)
    ensures Day(t) <= DaysIn(Year(t), Month(t))
    ensures DayNumber(t) == FirstOfMonth(Year(t), Month(t)) + Day(t) - 1
  {
    YearIsTwelveMonths(Year(t));
  }

  /** And every instant is the date its accessors read. */
  lemma DateOfFields(t: int)
    ensures Date(Year(t), Month(t), Day(t), Hour(t), Minute(t), Second(t)) == t
  {
    DayInMonth(t);
    ClockOf(t);
    DateInYear(Year(t), Month(t), Day(t), Hour(t), Minute(t), Second(t));
  }

  // ---- the Gregorian calendar ----

  const MONTH_LENGTHS := [31, 28, 31, 30, 31, 30, 31, 31, 30, 31, 30, 31]

  lemma HundredsAreFours(y: int)
    requires y % 100 == 0
    ensures y % 4 == 0
  {
    var q := y / 100;
    assert y == 4 * (25 * q);
  }

  lemma FourHundredsAreHundreds(y: int)
    requires y % 400 == 0
    ensures y % 100 == 0
  {
    var q := y / 400;
    assert y == 100 * (4 * q);
  }

  lemma Divisors(y: int)
    ensures (y % 400 == 0 ==> y % 100 == 0) && (y % 100 == 0 ==> y % 4 == 0)
  {
    if y % 400 == 0 {
      FourHundredsAreHundreds(y);
    }
    if y % 100 == 0 {
      HundredsAreFours(y);
    }
  }

  /** The table of month lengths; February is one day longer in every fourth year, but of the
      hundreds only in every fourth. */
  lemma MonthLengths(y: int, m: int)
    requires 1 <= m <= 12
    ensures m != 2 ==> DaysIn(y, m) == MONTH_LENGTHS[m - 1]
    ensures y % 400 == 0 ==> DaysIn(y, 2) == 29
    ensures y % 100 == 0 && y % 400 != 0 ==> DaysIn(y, 2) == 28
    ensures y % 100 != 0 ==> (DaysIn(y, 2) == 29 <==> y % 4 == 0)
    ensures DaysIn(y, 2) == 28 || DaysIn(y, 2) == 29
  {
    Divisors(y);
  }

  /** Leap years before year `y`. */
  function LeapsBefore(y: int): int { (y - 1) / 4 - (y - 1) / 100 + (y - 1) / 400 }

  lemma NextMultiple4(y: int)
    ensures y / 4 == (y - 1) / 4 + if y % 4 == 0 then 1 else 0
  {
  }

  lemma NextMultiple100(y: int)
    ensures y / 100 == (y - 1) / 100 + if y % 100 == 0 then 1 else 0
  {
  }

  lemma NextMultiple400(y: int)
    ensures y / 400 == (y - 1) / 400 + if y % 400 == 0 then 1 else 0
  {
  }

  lemma LeapStep(y: int)
    ensures LeapsBefore(y + 1) == LeapsBefore(y) + if IsLeap(y) then 1 else 0
  {
    NextMultiple4(y);
    NextMultiple100(y);
    NextMultiple400(y);
    Divisors(y);
  }

  /** The days before a year in closed form. */
  lemma {:induction false} DaysInYears(y: int)
    ensures DaysBeforeYear(y) == 365 * (y - 1) + LeapsBefore(y)
    decreases if y >= 1 then y else 2 - y
  {
    if y > 1 {
      DaysInYears(y - 1);
      LeapStep(y - 1);
    } else if y < 1 {
      DaysInYears(y + 1);
      LeapStep(y);
    }
  }

  lemma CycleOf4(y: int)
    ensures (y + 400) / 4 == y / 4 + 100 && (y + 400) % 4 == y % 4
  {
  }

  lemma CycleOf100(y: int)
    ensures (y + 400) / 100 == y / 100 + 4 && (y + 400) % 100 == y % 100
  {
  }

  lemma CycleOf400(y: int)
    ensures (y + 400) / 400 == y / 400 + 1 && (y + 400) % 400 == y % 400
  {
  }

  lemma CycleLeaps(y: int, z: int)
    requires z == y + 400
    ensures LeapsBefore(z) == LeapsBefore(y) + 97 && (IsLeap(z) <==> IsLeap(y))
  {
    CycleOf4(y - 1);
    CycleOf100(y - 1);
    CycleOf400(y - 1);
    CycleOf4(y);
    CycleOf100(y);
    CycleOf400(y);
  }

  /** The calendar repeats after 400 years, which are 146097 days. */
  lemma FourCenturies(y: int, z: int, m: int)
    requires z == y + 400 && 1 <= m <= 12
    ensures DaysBeforeYear(z) == DaysBeforeYear(y) + 146097
    ensures DaysIn(z, m) == DaysIn(y, m)
  {
    DaysInYears(y);
    DaysInYears(z);
    CycleLeaps(y, z);
  }

  /** 1 January 2001 was a Monday. */
  lemma NewMillennium(y: int, t: int)
    requires y == 2001 && DayNumber(t) == DaysBeforeYear(y)
    ensures Weekday(t) == 1
  {
    DaysInYears(y);
    assert LeapsBefore(y) == 485;
    assert 730486 == 7 * 104355 + 1;
  }
}
